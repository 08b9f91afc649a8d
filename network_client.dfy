/**
 * The client's receive loop (scripts/NetworkClient.cs). `_Process` takes at
 * most one datagram per frame, classifies it by its first byte as a `Global`
 * and decodes the fields of that response layout, which is the client's
 * own: a JOIN_ROOM response carries an Int32 name length and a name, a
 * CREATE_ROOM response an Int32 room id. The socket is a queue of waiting
 * datagrams plus a list of datagrams put on the wire.
 */
module ClientNet {
  import opened Octets
  import opened Optional
  import opened ClientGlobal
  import Wire

  /** Exceptions that leave `_Process` (nothing in it catches them). */
  datatype Exception =
    | IndexOutOfRange      // `packet[0]` of an empty datagram
    | ArgumentOutOfRange   // `Encoding.UTF8.GetString` with a negative count

  /**
   * The log lines that carry decoded data, the only trace the LEAVE,
   * CREATE_ROOM, JOIN_ROOM and ERROR responses leave. Text is kept as the
   * bytes handed to `Encoding.UTF8.GetString`.
   */
  datatype Note =
    | ServerError(message: Bytes)           // "Server Error: {errorMsg}"
    | ErrorTooShortForMessage(length: nat)  // "ERROR packet too short for message {len}"
    | ErrorTooShort(length: nat)            // "Error packet too short: {len}"
    | PlayerLeft(playerId: I32)             // "Player {playerId} left the server"
    | RoomCreated(roomId: I32)              // "RoomId {roomId} created"
    | JoinedRoom(roomName: Bytes)           // "Successfulled joined room: {roomName}"
    | JoinRoomFailed                        // the caught exception of the JOIN_ROOM arm
    | UnknownGlobal(tag: Byte)              // "Unknown Global: {tag}"

  /**
   * What one datagram causes: a datagram put back on the wire, a call
   * `UpdateConnectionStatus(true, id)`, a log line.
   */
  datatype Reaction = Reaction(reply: Option<Bytes>, connectedAs: Option<I32>, note: Option<Note>)

  datatype Outcome = Handled(reaction: Reaction) | Threw(exception: Exception)

  const NOTHING := Reaction(None, None, None)

  function Logged(n: Note): Reaction {
    Reaction(None, None, Some(n))
  }

  /** `(Global)b`: the named member with that value, if there is one. */
  function GlobalOf(b: Byte): (g: Option<Global>)
    ensures g.Some? <==> b <= 9
    ensures g.Some? ==> Code(g.value) == b
  {
    if b == 0 then Some(PING)
    else if b == 1 then Some(HANDSHAKE)
    else if b == 2 then Some(ACK)
    else if b == 3 then Some(LEAVE)
    else if b == 4 then Some(REPLICATE)
    else if b == 5 then Some(CREATE_ROOM)
    else if b == 6 then Some(JOIN_ROOM)
    else if b == 7 then Some(PLAYER_INPUT)
    else if b == 8 then Some(ROOM_SNAPSHOT)
    else if b == 9 then Some(ERROR)
    else None
  }

  /**
   * The ERROR arm. The length is a signed Int16, so a negative one passes
   * the second length check and makes `GetString` throw.
   */
  function ErrorArm(packet: Bytes): (o: Outcome)
    requires packet != []
    ensures o == Threw(ArgumentOutOfRange) <==> |packet| >= 3 && I16At(packet, 1) < 0
    ensures o.Threw? ==> o.exception == ArgumentOutOfRange
    ensures o.Handled? ==> o.reaction.reply.None? && o.reaction.connectedAs.None? && o.reaction.note.Some?
  {
    if |packet| >= 3 then
      var errorLength := I16At(packet, 1);
      if |packet| >= 3 + errorLength then
        if errorLength < 0 then Threw(ArgumentOutOfRange)
        else Handled(Logged(ServerError(packet[3..3 + errorLength])))
      else Handled(Logged(ErrorTooShortForMessage(|packet|)))
    else Handled(Logged(ErrorTooShort(|packet|)))
  }

  /**
   * The JOIN_ROOM arm: `ToInt32(packet, 1)` needs five bytes and
   * `GetString(packet, 5, n)` needs 0 <= n <= length - 5; both failures are
   * caught and logged.
   */
  function JoinRoomArm(packet: Bytes): (o: Outcome)
    requires packet != []
    ensures o.Handled? && o.reaction.reply.None? && o.reaction.connectedAs.None?
    ensures o.reaction.note.Some? <==> |packet| >= 3
    ensures o.reaction.note.Some? ==> o.reaction.note.value.JoinedRoom? || o.reaction.note == Some(JoinRoomFailed)
  {
    if |packet| >= 3 then
      if |packet| < 5 then Handled(Logged(JoinRoomFailed))
      else
        var nameLength := I32At(packet, 1);
        if nameLength < 0 || 5 + nameLength > |packet| then Handled(Logged(JoinRoomFailed))
        else Handled(Logged(JoinedRoom(packet[5..5 + nameLength])))
    else Handled(NOTHING)
  }

  /** The `switch` of `_Process` on one datagram. */
  function Dispatch(packet: Bytes): (o: Outcome)
    ensures packet == [] <==> o == Threw(IndexOutOfRange)
    ensures o.Handled? && o.reaction.reply.Some? <==> packet != [] && packet[0] == Code(PING)
    ensures o.Handled? && o.reaction.reply.Some? ==> o.reaction.reply.value == [Code(PING)]
    ensures o.Handled? && o.reaction.connectedAs.Some? <==> packet != [] && packet[0] == Code(ACK) && |packet| >= 5
    ensures o == Threw(ArgumentOutOfRange) ==> packet[0] == Code(ERROR)
  {
    if packet == [] then Threw(IndexOutOfRange)
    else
      match GlobalOf(packet[0])
      case Some(ERROR) => ErrorArm(packet)
      case Some(PING) => Handled(Reaction(Some([Code(PING)]), None, None))
      case Some(ACK) =>
        if |packet| >= 5 then Handled(Reaction(None, Some(I32At(packet, 1)), None)) else Handled(NOTHING)
      case Some(LEAVE) =>
        if |packet| >= 5 then Handled(Logged(PlayerLeft(I32At(packet, 1)))) else Handled(NOTHING)
      case Some(CREATE_ROOM) =>
        if |packet| >= 5 then Handled(Logged(RoomCreated(I32At(packet, 1)))) else Handled(NOTHING)
      case Some(JOIN_ROOM) => JoinRoomArm(packet)
      case _ => Handled(Logged(UnknownGlobal(packet[0])))
  }

  /** A PING, whatever follows the tag, is answered with the single byte 0 and nothing else. */
  lemma PingAnswered(rest: Bytes)
    ensures Dispatch([0] + rest) == Handled(Reaction(Some([0]), None, None))
  {
  }

  /** An ACK of five bytes or more reports the Int32 at offset 1; a shorter one does nothing. */
  lemma AckReports(packet: Bytes)
    requires packet != [] && packet[0] == Code(ACK)
    ensures |packet| >= 5 ==> Dispatch(packet) == Handled(Reaction(None, Some(I32At(packet, 1)), None))
    ensures |packet| < 5 ==> Dispatch(packet) == Handled(NOTHING)
  {
  }

  /** LEAVE and CREATE_ROOM responses log the Int32 at offset 1 when there are five bytes, else nothing. */
  lemma IdResponsesLogged(packet: Bytes)
    requires packet != [] && (packet[0] == Code(LEAVE) || packet[0] == Code(CREATE_ROOM))
    ensures |packet| < 5 ==> Dispatch(packet) == Handled(NOTHING)
    ensures |packet| >= 5 && packet[0] == Code(LEAVE) ==>
      Dispatch(packet) == Handled(Logged(PlayerLeft(I32At(packet, 1))))
    ensures |packet| >= 5 && packet[0] == Code(CREATE_ROOM) ==>
      Dispatch(packet) == Handled(Logged(RoomCreated(I32At(packet, 1))))
  {
  }

  /**
   * An ERROR response is decoded exactly when it has three bytes and its
   * declared length is non-negative and fits; a negative declared length
   * throws; every other case logs that the packet is too short.
   */
  lemma ErrorResponses(packet: Bytes)
    requires packet != [] && packet[0] == Code(ERROR)
    ensures Dispatch(packet).Handled? && Dispatch(packet).reaction.note.Some?
            && Dispatch(packet).reaction.note.value.ServerError? <==>
      |packet| >= 3 && 0 <= I16At(packet, 1) && 3 + I16At(packet, 1) <= |packet|
    ensures Dispatch(packet) == Threw(ArgumentOutOfRange) <==> |packet| >= 3 && I16At(packet, 1) < 0
    ensures |packet| >= 3 && 0 <= I16At(packet, 1) && 3 + I16At(packet, 1) <= |packet| ==>
      Dispatch(packet) == Handled(Logged(ServerError(packet[3..3 + I16At(packet, 1)])))
    ensures Dispatch(packet).Handled? ==> Dispatch(packet).reaction.reply.None? && Dispatch(packet).reaction.connectedAs.None?
  {
  }

  /** The header 9, 0xFF, 0xFF declares length -1: it passes both checks and `GetString` throws. */
  lemma NegativeErrorLengthThrows()
    ensures I16At([9, 0xFF, 0xFF], 1) == -1
    ensures Dispatch([9, 0xFF, 0xFF]) == Threw(ArgumentOutOfRange)
  {
    assert U16At([9, 0xFF, 0xFF], 1) == 0xFFFF;
  }

  /**
   * A JOIN_ROOM response of at least three bytes either yields the room
   * name the Int32 at offset 1 delimits from offset 5, or, when that read
   * goes out of range, logs the caught failure; nothing propagates.
   */
  lemma JoinRoomResponses(packet: Bytes)
    requires packet != [] && packet[0] == Code(JOIN_ROOM)
    ensures Dispatch(packet).Handled?
    ensures |packet| < 3 ==> Dispatch(packet) == Handled(NOTHING)
    ensures |packet| >= 3 ==>
      Dispatch(packet) == Handled(Logged(
        if |packet| >= 5 && 0 <= I32At(packet, 1) && 5 + I32At(packet, 1) <= |packet|
        then JoinedRoom(packet[5..5 + I32At(packet, 1)])
        else JoinRoomFailed))
  {
  }

  /** Tags the switch has no arm for (HANDSHAKE, REPLICATE, PLAYER_INPUT, ROOM_SNAPSHOT, 10 and up) are only logged. */
  lemma UnknownTagsLogged(packet: Bytes)
    requires packet != [] && packet[0] !in {0, 2, 3, 5, 6, 9}
    ensures Dispatch(packet) == Handled(Logged(UnknownGlobal(packet[0])))
  {
  }

  /**
   * The server's acknowledgement reaches the connection manager: the
   * client reads `Message::Ack(id).serialize()` back as id, reinterpreted
   * as a signed Int32 (ids above `int.MaxValue` come out negative).
   */
  lemma ServerAckUnderstood(id: U32)
    ensures Dispatch(Wire.Serialize(Wire.Ack(id))) == Handled(Reaction(None, Some(Signed32(id)), None))
    ensures id <= MAX_I32 ==> Dispatch(Wire.Serialize(Wire.Ack(id))).reaction.connectedAs == Some(id)
  {
    var p := Wire.Serialize(Wire.Ack(id));
    Le32DecodesAt([2], id, []);
    assert p == [2] + Le32(id) + [];
  }

  /** The client's answer to the server's PING is itself a PING to the server. */
  lemma PingPong()
    ensures Dispatch(Wire.Serialize(Wire.Ping)).reaction.reply == Some([0])
    ensures Wire.Deserialize([0]) == Wire.Ok(Wire.Ping)
  {
    Wire.PingCodec([]);
  }

  class NetworkClient {
    /** Datagrams waiting in the socket, oldest first. */
    var available: seq<Bytes>
    /** Datagrams handed to `PutPacket`, oldest first. */
    var putPackets: seq<Bytes>
    /** The ids passed to `UpdateConnectionStatus(true, id)`. */
    var connections: seq<I32>
    var notes: seq<Note>
    /** The datagrams `OnPacketReceived` was raised with. */
    var received: seq<Bytes>

    constructor (available: seq<Bytes>)
      ensures this.available == available
      ensures putPackets == [] && connections == [] && notes == [] && received == []
    {
      this.available := available;
      putPackets := [];
      connections := [];
      notes := [];
      received := [];
    }

    /**
     * `_Process`: with no datagram waiting nothing happens. Otherwise
     * exactly one is taken and dispatched; unless that throws, its
     * reaction takes effect and `OnPacketReceived` is raised once with it,
     * whatever its tag.
     */
    method Process() returns (thrown: Option<Exception>)
      modifies this
      ensures old(available) == [] ==>
        thrown == None && available == [] && putPackets == old(putPackets)
        && connections == old(connections) && notes == old(notes) && received == old(received)
      ensures old(available) != [] ==>
        var packet := old(available)[0];
        var o := Dispatch(packet);
        && available == old(available)[1..]
        && (o.Threw? ==>
             thrown == Some(o.exception) && putPackets == old(putPackets)
             && connections == old(connections) && notes == old(notes) && received == old(received))
        && (o.Handled? ==>
             thrown == None
             && putPackets == old(putPackets) + AsSeq(o.reaction.reply)
             && connections == old(connections) + AsSeq(o.reaction.connectedAs)
             && notes == old(notes) + AsSeq(o.reaction.note)
             && received == old(received) + [packet])
    {
      thrown := None;
      if |available| > 0 {
        var packet := available[0];
        available := available[1..];
        var o := Dispatch(packet);
        if o.Threw? {
          thrown := Some(o.exception);
          return;
        }
        putPackets := putPackets + AsSeq(o.reaction.reply);
        connections := connections + AsSeq(o.reaction.connectedAs);
        notes := notes + AsSeq(o.reaction.note);
        received := received + [packet];
      }
    }

    /** `SendPacket(packet)`: puts the datagram on the wire as it is. */
    method SendPacket(packet: Bytes)
      modifies this`putPackets
      ensures putPackets == old(putPackets) + [packet]
    {
      putPackets := putPackets + [packet];
    }
  }
}
