/**
 * The client's plain entity classes (scripts/entities/player.cs and
 * scripts/entities/room.cs). The engine clock `Time.GetTicksMsec()` is a
 * parameter `now`; Godot's `Vector2` is a pair of reals.
 */
module ClientEntities {
  import opened Octets
  import Roster

  datatype Vector2 = Vector2(x: real, y: real)

  /** `Vector2.Zero`. */
  const ZERO := Vector2(0.0, 0.0)

  class Player {
    var playerId: I32
    var username: string
    var position: Vector2
    /** Milliseconds since engine start at the last update (`ulong`). */
    var lastActive: U64
    var connected: bool

    /**
     * `new Player(playerId, username)`: id, name and the clock reading
     * overwrite their field initialisers (-1, "" and 0), which are therefore
     * never observed; position and connection keep theirs.
     */
    constructor (playerId: I32, username: string, now: U64)
      ensures this.playerId == playerId && this.username == username && lastActive == now
      ensures position == ZERO && !connected
    {
      this.playerId := playerId;
      this.username := username;
      position := ZERO;
      lastActive := now;
      connected := false;
    }

    /**
     * `UpdatePosition(newPos)`: moves the player and stamps the time; id,
     * name and connection are outside the frame, so they do not change.
     * With a clock that does not run backwards, `lastActive` never decreases.
     */
    method UpdatePosition(newPos: Vector2, now: U64)
      modifies this`position, this`lastActive
      ensures position == newPos && lastActive == now
      ensures old(lastActive) <= now ==> old(lastActive) <= lastActive
    {
      position := newPos;
      lastActive := now;
    }
  }

  class Room {
    var rommId: I32
    var roomName: string
    var players: map<I32, Player>

    /** `new Room(roomId, roomName)`: no players yet. */
    constructor (roomId: I32, roomName: string)
      ensures rommId == roomId && this.roomName == roomName && players == map[]
    {
      rommId := roomId;
      this.roomName := roomName;
      players := map[];
    }

    /** `Players[user.PlayerId] = user`: adds, or replaces an entry with the same id. */
    method AddPlayer(user: Player)
      modifies this`players
      ensures players == Roster.Put(old(players), user.playerId, user)
    {
      players := players[user.playerId := user];
    }

    /** `Players.Remove(playerId)`: no effect when the id is absent. */
    method RemovePlayer(playerId: I32)
      modifies this`players
      ensures players == Roster.Drop(old(players), playerId)
    {
      players := players - {playerId};
    }
  }
}
