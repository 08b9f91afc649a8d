/** The server's message tags (server_udp/src/config/globals.rs). */
module ServerCommands {
  import opened Octets

  const PING: Byte := 0
  const HANDSHAKE: Byte := 1
  const ACK: Byte := 2
  const LEAVE: Byte := 3
  const REPLICATE: Byte := 4
  const CREATE_ROOM: Byte := 5
  const JOIN_ROOM: Byte := 6
  const PLAYER_INPUT: Byte := 7
  const ROOM_SNAPSHOT: Byte := 8
}

/** The client's message tags, the `enum Global : byte` (scripts/config/global.cs). */
module ClientGlobal {
  import opened Octets
  import ServerCommands
  import opened Optional

  datatype Global =
    | PING | HANDSHAKE | ACK | LEAVE | REPLICATE | CREATE_ROOM | JOIN_ROOM
    | PLAYER_INPUT | ROOM_SNAPSHOT | ERROR

  /** The byte each enum member stands for. */
  function Code(g: Global): Byte {
    match g
    case PING => 0
    case HANDSHAKE => 1
    case ACK => 2
    case LEAVE => 3
    case REPLICATE => 4
    case CREATE_ROOM => 5
    case JOIN_ROOM => 6
    case PLAYER_INPUT => 7
    case ROOM_SNAPSHOT => 8
    case ERROR => 9
  }

  /** The server's constant of the same name, if it has one. */
  function ServerCode(g: Global): Option<Byte> {
    match g
    case PING => Some(ServerCommands.PING)
    case HANDSHAKE => Some(ServerCommands.HANDSHAKE)
    case ACK => Some(ServerCommands.ACK)
    case LEAVE => Some(ServerCommands.LEAVE)
    case REPLICATE => Some(ServerCommands.REPLICATE)
    case CREATE_ROOM => Some(ServerCommands.CREATE_ROOM)
    case JOIN_ROOM => Some(ServerCommands.JOIN_ROOM)
    case PLAYER_INPUT => Some(ServerCommands.PLAYER_INPUT)
    case ROOM_SNAPSHOT => Some(ServerCommands.ROOM_SNAPSHOT)
    case ERROR => None
  }

  /**
   * The two tables agree on every tag the server defines; the only member
   * the client adds is `ERROR = 9`, a value the server gives to nothing.
   */
  lemma TablesAgree()
    ensures forall g :: ServerCode(g).Some? ==> ServerCode(g).value == Code(g)
    ensures forall g :: ServerCode(g).None? <==> g == ERROR
    ensures Code(ERROR) == 9 && forall g :: ServerCode(g) != Some(9)
  {
  }

  /** No two enum members share a byte. */
  lemma CodeInjective(g: Global, h: Global)
    requires Code(g) == Code(h)
    ensures g == h
  {
  }
}
