/**
 * The client's session state (scripts/ClientStateManager.cs): the local
 * player, the current room and the last processed input sequence.
 * `CurrentRoom` has a private setter and is only ever assigned `null`, so
 * every method keeps a null room null.
 */
module ClientState {
  import opened Octets
  import opened ClientEntities
  import Roster

  class ClientStateManager {
    var localPlayer: Player?
    var currentRoom: Room?
    var lastProcessedSequence: I32

    /** The initial state: no player, no room, sequence -1. */
    constructor ()
      ensures localPlayer == null && currentRoom == null && lastProcessedSequence == -1
    {
      localPlayer := null;
      currentRoom := null;
      lastProcessedSequence := -1;
    }

    /**
     * `UpdateConnectionStatus(connected, playerId, username)`. Connecting
     * replaces the local player by a new one and leaves the room and the
     * sequence alone; disconnecting clears all three.
     */
    method UpdateConnectionStatus(connected: bool, playerId: I32, username: string, now: U64)
      modifies this`localPlayer, this`currentRoom, this`lastProcessedSequence
      ensures connected ==>
        && localPlayer != null && fresh(localPlayer)
        && localPlayer.playerId == playerId && localPlayer.username == username
        && localPlayer.lastActive == now && localPlayer.position == ZERO && !localPlayer.connected
        && currentRoom == old(currentRoom) && lastProcessedSequence == old(lastProcessedSequence)
      ensures !connected ==> localPlayer == null && currentRoom == null && lastProcessedSequence == -1
      ensures old(currentRoom) == null ==> currentRoom == null
    {
      if connected {
        localPlayer := new Player(playerId, username, now);
      } else {
        localPlayer := null;
        currentRoom := null;
        lastProcessedSequence := -1;
      }
    }

    /**
     * `AddPlayerToCurrentRoom(playerId, username)`: nothing happens without
     * a room or when the id is already seated (an entry is never
     * overwritten); otherwise a new player is seated under its id and no
     * other entry changes.
     */
    method AddPlayerToCurrentRoom(playerId: I32, username: string, now: U64)
      modifies currentRoom
      ensures currentRoom == old(currentRoom)
      ensures currentRoom != null && playerId in old(currentRoom.players) ==>
        currentRoom.players == old(currentRoom.players)
      ensures currentRoom != null && playerId !in old(currentRoom.players) ==>
        && playerId in currentRoom.players
        && var p := currentRoom.players[playerId];
        && fresh(p) && p.playerId == playerId && p.username == username
        && currentRoom.players == Roster.Put(old(currentRoom.players), playerId, p)
      ensures currentRoom != null ==>
        currentRoom.rommId == old(currentRoom.rommId) && currentRoom.roomName == old(currentRoom.roomName)
    {
      if currentRoom != null && playerId !in currentRoom.players {
        var player := new Player(playerId, username, now);
        currentRoom.AddPlayer(player);
      }
    }

    /**
     * `SetCurrentRoom(roomId)` renames the current room's id. The source
     * does not check for a room: with none it throws a
     * `NullReferenceException`, reported here as `nullReference`.
     */
    method SetCurrentRoom(roomId: I32) returns (nullReference: bool)
      modifies currentRoom
      ensures currentRoom == old(currentRoom)
      ensures nullReference <==> currentRoom == null
      ensures currentRoom != null ==>
        && currentRoom.rommId == roomId
        && currentRoom.roomName == old(currentRoom.roomName)
        && currentRoom.players == old(currentRoom.players)
    {
      if currentRoom == null {
        return true;
      }
      currentRoom.rommId := roomId;
      nullReference := false;
    }

    /** `RemovePlayerFromCurrentRoom(playerId)`: nothing without a room, else only that id goes. */
    method RemovePlayerFromCurrentRoom(playerId: I32)
      modifies currentRoom
      ensures currentRoom == old(currentRoom)
      ensures currentRoom != null ==>
        && currentRoom.players == Roster.Drop(old(currentRoom.players), playerId)
        && currentRoom.rommId == old(currentRoom.rommId) && currentRoom.roomName == old(currentRoom.roomName)
    {
      if currentRoom != null {
        currentRoom.RemovePlayer(playerId);
      }
    }
  }
}
