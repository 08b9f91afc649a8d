/**
 * The server's wire codec, `Message::serialize` and `Message::deserialize`
 * (server_udp/src/network/message.rs): one tag byte, little-endian `u32`
 * ids, strings as UTF-8 bytes behind a little-endian length.
 *
 * The model keeps the codec as written, defects included: CreateRoom's
 * password length is written as a `usize` (8 bytes) but read as a `u16`,
 * and two reads are unchecked and panic (`Decoded.Panic`).
 */
module Wire {
  import opened Octets
  import opened ServerCommands
  import Utf8

  /** String fields hold the UTF-8 bytes of a Rust `String`. */
  datatype Message =
    | Ping
    | Handshake(playerName: Bytes)
    | Ack(playerId: U32)
    | CreateRoom(roomName: Bytes, roomPass: Bytes)
    | Leave(playerId: U32)
    | JoinRoom(roomId: U32, roomPass: Bytes)

  /** Every string field is well-formed UTF-8, as every Rust `String` is. */
  predicate WellFormed(m: Message) {
    match m
    case Handshake(name) => Utf8.Valid(name)
    case CreateRoom(name, pass) => Utf8.Valid(name) && Utf8.Valid(pass)
    case JoinRoom(_, pass) => Utf8.Valid(pass)
    case _ => true
  }

  /** The messages of the `io::Error`s (all of kind `InvalidData`). */
  datatype DecodeError =
    | EmptyPacket                                   // "Empty packet"
    | MissingName                                   // "Packet too short! Missing name"
    | TooShort                                      // "Packet too short"
    | TooShortForJoinRoom                           // "Packet too short for JOIN_ROOM"
    | InvalidUtf8                                   // a `FromUtf8Error`
    | UnknownCommand(command: Byte, length: nat)    // "Unknow command {} or insufficient length {}"

  /** What `deserialize` does: return `Ok`, return `Err`, or panic on an out-of-range index. */
  datatype Decoded = Ok(msg: Message) | Err(error: DecodeError) | Panic

  /** The tag each message is sent under: always one `deserialize` has an arm for. */
  function Tag(m: Message): (t: Byte)
    ensures t <= JOIN_ROOM && t != REPLICATE
  {
    match m
    case Ping => PING
    case Handshake(_) => HANDSHAKE
    case Ack(_) => ACK
    case CreateRoom(_, _) => CREATE_ROOM
    case Leave(_) => LEAVE
    case JoinRoom(_, _) => JOIN_ROOM
  }

  /**
   * `Message::serialize`. Lengths go through `as u16`, which keeps the low
   * 16 bits (`Le16`); CreateRoom's password length is written as the whole
   * `usize` (`Le64`).
   */
  function Serialize(m: Message): (packet: Bytes)
    ensures |packet| >= 1 && packet[0] == Tag(m)
    ensures m.Ack? || m.Leave? ==> |packet| == 5
  {
    match m
    case Ping => [PING]
    case Handshake(name) =>
      [HANDSHAKE] + Le16(|name|) + name
    case Ack(id) => [ACK] + Le32(id)
    case Leave(id) => [LEAVE] + Le32(id)
    case CreateRoom(name, pass) =>
      [CREATE_ROOM] + Le16(|name|) + name
      + Le64(|pass|) + pass
    case JoinRoom(id, pass) =>
      [JOIN_ROOM] + Le32(id) + Le16(|pass|) + pass
  }

  /** `Message::deserialize`: the match arms in the source's order, guards included. */
  function Deserialize(packet: Bytes): (r: Decoded)
    ensures packet == [] <==> r == Err(EmptyPacket)
    ensures r.Ok? ==> Tag(r.msg) == packet[0]
    ensures r.Panic? ==> packet[0] == ACK || packet[0] == CREATE_ROOM
  {
    if packet == [] then Err(EmptyPacket)
    else
      var tag := packet[0];
      if tag == PING then Ok(Ping)
      else if tag == HANDSHAKE && |packet| >= 3 then DecodeHandshake(packet)
      else if tag == ACK then DecodeAck(packet)
      else if tag == LEAVE && |packet| >= 5 then Ok(Leave(U32At(packet, 1)))
      else if tag == CREATE_ROOM && |packet| > 5 then DecodeCreateRoom(packet)
      else if tag == JOIN_ROOM && |packet| >= 7 then DecodeJoinRoom(packet)
      else Err(UnknownCommand(tag, |packet|))
  }

  /** The handshake arm's `String::from_utf8` on the name slice, wrapped as a message. */
  function HandshakeName(bytes: Bytes): (r: Decoded)
    ensures r.Ok? <==> Utf8.Valid(bytes)
    ensures r.Ok? ==> r.msg == Handshake(bytes)
    ensures !r.Ok? ==> r == Err(InvalidUtf8)
  {
    if Utf8.Valid(bytes) then Ok(Handshake(bytes)) else Err(InvalidUtf8)
  }

  function DecodeHandshake(packet: Bytes): (r: Decoded)
    requires |packet| >= 3 && packet[0] == HANDSHAKE
    ensures r.Ok? ==> r.msg.Handshake?
    ensures !r.Panic?
  {
    var length := U16At(packet, 1);
    if |packet| < 3 + length then Err(MissingName)
    else HandshakeName(packet[3..3 + length])
  }

  /** The ACK arm has no length guard: `packet[1..5]` panics on a short packet. */
  function DecodeAck(packet: Bytes): (r: Decoded)
    requires |packet| >= 1 && packet[0] == ACK
    ensures r.Panic? <==> |packet| < 5
  {
    if |packet| < 5 then Panic else Ok(Ack(U32At(packet, 1)))
  }

  /**
   * The CREATE_ROOM arm checks the name against the packet length but not
   * the password: the password slice panics when it runs past the end.
   */
  function DecodeCreateRoom(packet: Bytes): (r: Decoded)
    requires |packet| > 5 && packet[0] == CREATE_ROOM
    ensures r.Ok? ==> r.msg.CreateRoom?
  {
    var nameLen := U16At(packet, 1);
    if |packet| < 3 + nameLen + 2 then Err(TooShort)
    else
      var name := packet[3..3 + nameLen];
      if !Utf8.Valid(name) then Err(InvalidUtf8)
      else
        var passOffset := 3 + nameLen;
        var passLen := U16At(packet, passOffset);
        if passOffset + passLen + 2 > |packet| then Panic
        else
          var pass := packet[passOffset + 2..passOffset + passLen + 2];
          if !Utf8.Valid(pass) then Err(InvalidUtf8)
          else Ok(CreateRoom(name, pass))
  }

  function DecodeJoinRoom(packet: Bytes): (r: Decoded)
    requires |packet| >= 7 && packet[0] == JOIN_ROOM
    ensures r.Ok? ==> r.msg.JoinRoom?
    ensures !r.Panic?
  {
    var roomId := U32At(packet, 1);
    var passLen := U16At(packet, 5);
    if |packet| < 7 + passLen then Err(TooShortForJoinRoom)
    else
      var password := packet[7..7 + passLen];
      if !Utf8.Valid(password) then Err(InvalidUtf8)
      else Ok(JoinRoom(roomId, password))
  }

  // ---------------------------------------------------------------------
  // Round trips

  /** Ping is the single byte 0, and any packet starting with 0 is a Ping. */
  lemma PingCodec(rest: Bytes)
    ensures Serialize(Ping) == [PING]
    ensures Deserialize([PING] + rest) == Ok(Ping)
  {
  }

  /** p holds a handshake at the place the decoder reads it: the name's length, then the name. */
  predicate HandshakeAt(p: Bytes, name: Bytes) {
    |p| >= 3 && p[0] == HANDSHAKE
    && U16At(p, 1) == |name| && 3 + |name| <= |p| && p[3..3 + |name|] == name
  }

  /** p holds a join request: the room id, the password's length, then the password. */
  predicate JoinRoomAt(p: Bytes, id: U32, pass: Bytes) {
    |p| >= 7 && p[0] == JOIN_ROOM
    && U32At(p, 1) == id && U16At(p, 5) == |pass| && 7 + |pass| <= |p| && p[7..7 + |pass|] == pass
  }

  /** p holds a room: the name's length, the name, the password's length, the password. */
  predicate CreateRoomAt(p: Bytes, name: Bytes, pass: Bytes) {
    |p| > 5 && p[0] == CREATE_ROOM
    && U16At(p, 1) == |name| && 5 + |name| <= |p| && p[3..3 + |name|] == name
    && U16At(p, 3 + |name|) == |pass| && 5 + |name| + |pass| <= |p|
    && p[5 + |name|..5 + |name| + |pass|] == pass
  }

  /** A packet holding a handshake decodes to its name, or to a UTF-8 error. */
  lemma HandshakeFields(p: Bytes, name: Bytes)
    requires HandshakeAt(p, name)
    ensures Deserialize(p) == if Utf8.Valid(name) then Ok(Handshake(name)) else Err(InvalidUtf8)
  {
  }

  /** A packet holding a join request decodes to it, or to a UTF-8 error. */
  lemma JoinRoomFields(p: Bytes, id: U32, pass: Bytes)
    requires JoinRoomAt(p, id, pass)
    ensures Deserialize(p) == if Utf8.Valid(pass) then Ok(JoinRoom(id, pass)) else Err(InvalidUtf8)
  {
  }

  /** A packet holding a room decodes to it, or to a UTF-8 error. */
  lemma CreateRoomFields(p: Bytes, name: Bytes, pass: Bytes)
    requires CreateRoomAt(p, name, pass)
    ensures Deserialize(p)
      == if !Utf8.Valid(name) || !Utf8.Valid(pass) then Err(InvalidUtf8) else Ok(CreateRoom(name, pass))
  {
  }

  /** A serialized handshake holds the name cut to its length modulo 2^16. */
  lemma HandshakeLayout(name: Bytes, p: Bytes)
    requires p == Serialize(Handshake(name))
    ensures HandshakeAt(p, name[..|name| % 0x1_0000])
  {
    Mod16Shrinks(|name|);
    Le16DecodesAt([HANDSHAKE], |name|, name);
  }

  /**
   * A handshake decodes to the name cut to its length modulo 2^16 (the
   * `as u16` truncation), or to an error when that cut splits a character.
   */
  lemma HandshakeDecodesTruncated(name: Bytes)
    ensures var k := |name| % 0x1_0000;
      Deserialize(Serialize(Handshake(name)))
      == if Utf8.Valid(name[..k]) then Ok(Handshake(name[..k])) else Err(InvalidUtf8)
  {
    var p := Serialize(Handshake(name));
    HandshakeLayout(name, p);
    HandshakeFields(p, name[..|name| % 0x1_0000]);
  }

  /** A name of at most 65535 bytes is read back whole when it is UTF-8. */
  lemma HandshakeDecodes(name: Bytes)
    requires |name| <= 0xFFFF
    ensures Deserialize(Serialize(Handshake(name)))
      == if Utf8.Valid(name) then Ok(Handshake(name)) else Err(InvalidUtf8)
  {
    HandshakeDecodesTruncated(name);
    SmallMod16(|name|);
    assert name[..|name|] == name;
  }

  /** Names of at most 65535 bytes survive the round trip. */
  lemma HandshakeRoundTrip(name: Bytes)
    requires Utf8.Valid(name) && |name| <= 0xFFFF
    ensures Deserialize(Serialize(Handshake(name))) == Ok(Handshake(name))
  {
    HandshakeDecodes(name);
  }

  /** Ack and Leave are the tag and the little-endian id, and both read back. */
  lemma IdMessagesRoundTrip(id: U32)
    ensures Serialize(Ack(id)) == [ACK] + Le32(id)
    ensures Serialize(Leave(id)) == [LEAVE] + Le32(id)
    ensures Deserialize(Serialize(Ack(id))) == Ok(Ack(id))
    ensures Deserialize(Serialize(Leave(id))) == Ok(Leave(id))
  {
    Le32DecodesAt([ACK], id, []);
    Le32DecodesAt([LEAVE], id, []);
    assert [ACK] + Le32(id) + [] == [ACK] + Le32(id);
    assert [LEAVE] + Le32(id) + [] == [LEAVE] + Le32(id);
  }

  /** A join request with a password of at most 65535 bytes reads back when the password is UTF-8. */
  lemma JoinRoomDecodes(id: U32, pass: Bytes)
    requires |pass| <= 0xFFFF
    ensures Deserialize(Serialize(JoinRoom(id, pass)))
      == if Utf8.Valid(pass) then Ok(JoinRoom(id, pass)) else Err(InvalidUtf8)
  {
    var p := Serialize(JoinRoom(id, pass));
    JoinRoomLayout(id, pass, p);
    JoinRoomFields(p, id, pass);
  }

  /** A serialized join request holds its id and password where the decoder reads them. */
  lemma JoinRoomLayout(id: U32, pass: Bytes, p: Bytes)
    requires |pass| <= 0xFFFF
    requires p == Serialize(JoinRoom(id, pass))
    ensures JoinRoomAt(p, id, pass)
  {
    SmallMod16(|pass|);
    assert p == [JOIN_ROOM] + Le32(id) + (Le16(|pass|) + pass);
    Le32DecodesAt([JOIN_ROOM], id, Le16(|pass|) + pass);
    Le16DecodesAt([JOIN_ROOM] + Le32(id), |pass|, pass);
    assert p[7..7 + |pass|] == pass;
  }

  lemma JoinRoomRoundTrip(id: U32, pass: Bytes)
    requires Utf8.Valid(pass) && |pass| <= 0xFFFF
    ensures Deserialize(Serialize(JoinRoom(id, pass))) == Ok(JoinRoom(id, pass))
  {
    JoinRoomDecodes(id, pass);
  }

  /**
   * What the CreateRoom decoder reads as the password: the six high bytes of
   * the `usize` length (zero for lengths below 2^16) followed by the
   * password, cut to the password's length.
   */
  function Garbled(pass: Bytes): (g: Bytes)
    ensures |g| == |pass|
  {
    (Zeros(6) + pass)[..|pass|]
  }

  /**
   * The CreateRoom round trip as written: the name survives, the password is
   * the shifted `Garbled(pass)`, and both are checked for UTF-8.
   */
  lemma CreateRoomDecodes(name: Bytes, pass: Bytes)
    requires |name| <= 0xFFFF && |pass| <= 0xFFFF
    ensures Deserialize(Serialize(CreateRoom(name, pass)))
      == if !Utf8.Valid(name) || !Utf8.Valid(Garbled(pass)) then Err(InvalidUtf8)
         else Ok(CreateRoom(name, Garbled(pass)))
  {
    var p := Serialize(CreateRoom(name, pass));
    CreateRoomLayout(name, pass, p);
    CreateRoomFields(p, name, Garbled(pass));
  }

  /** For a well-formed room name, what arrives is the room with the garbled password. */
  lemma CreateRoomAsWritten(name: Bytes, pass: Bytes)
    requires Utf8.Valid(name) && Utf8.Valid(pass) && |name| <= 0xFFFF && |pass| <= 0xFFFF
    ensures Deserialize(Serialize(CreateRoom(name, pass)))
      == if Utf8.Valid(Garbled(pass)) then Ok(CreateRoom(name, Garbled(pass))) else Err(InvalidUtf8)
  {
    CreateRoomDecodes(name, pass);
  }

  /** Where the CreateRoom decoder finds each field of a serialized CreateRoom. */
  lemma CreateRoomLayout(name: Bytes, pass: Bytes, p: Bytes)
    requires |name| <= 0xFFFF && |pass| <= 0xFFFF
    requires p == Serialize(CreateRoom(name, pass))
    ensures |p| == 11 + |name| + |pass|
    ensures CreateRoomAt(p, name, Garbled(pass))
  {
    var head, tail := [CREATE_ROOM] + Le16(|name|) + name, Le64(|pass|) + pass;
    assert p == head + tail;
    CreateRoomNameField(name, head, tail);
    CreateRoomPasswordAfter(head, pass, tail);
  }

  /** The name field of a serialized CreateRoom, whatever follows it. */
  lemma CreateRoomNameField(name: Bytes, head: Bytes, tail: Bytes)
    requires |name| <= 0xFFFF && head == [CREATE_ROOM] + Le16(|name|) + name
    ensures |head| == 3 + |name|
    ensures U16At(head + tail, 1) == |name| && (head + tail)[3..3 + |name|] == name
  {
    SmallMod16(|name|);
    Le16DecodesAt([CREATE_ROOM], |name|, name);
    U16AtPrefix(head, tail, 1);
    SlicePrefix(head, tail, 3, 3 + |name|);
  }

  /** The password field of a serialized CreateRoom, whatever precedes it. */
  lemma CreateRoomPasswordAfter(head: Bytes, pass: Bytes, tail: Bytes)
    requires |pass| <= 0xFFFF && tail == Le64(|pass|) + pass
    ensures U16At(head + tail, |head|) == |pass|
    ensures (head + tail)[|head| + 2..|head| + 2 + |pass|] == Garbled(pass)
  {
    CreateRoomPasswordField(|pass|, pass);
    U16AtSuffix(head, tail, 0);
    SliceSuffix(head, tail, 2, 2 + |pass|);
  }

  /** The password field as the decoder sees it: a `u16` length and what follows it. */
  lemma CreateRoomPasswordField(q: nat, pass: Bytes)
    requires q == |pass| <= 0xFFFF
    ensures U16At(Le64(q) + pass, 0) == q
    ensures (Le64(q) + pass)[2..q + 2] == Garbled(pass)
  {
    Le64Small(q);
    var rest := Zeros(6) + pass;
    assert Le64(q) + pass == Le16(q) + rest;
    Le16Decodes(q);
    SmallMod16(q);
    U16AtPrefix(Le16(q), rest, 0);
    SliceSuffix(Le16(q), rest, 0, q);
  }

  lemma {:induction false} GarbledFixedPointIsZero(pass: Bytes, i: nat)
    requires Garbled(pass) == pass && i < |pass|
    ensures pass[i] == 0
    decreases i
  {
    assert pass[i] == Garbled(pass)[i];
    if i >= 6 {
      GarbledFixedPointIsZero(pass, i - 6);
    }
  }

  /**
   * CreateRoom survives the round trip exactly when the password is all NUL
   * bytes; in particular whenever it is empty, and never for a printable one.
   */
  lemma CreateRoomRoundTripIff(name: Bytes, pass: Bytes)
    requires Utf8.Valid(name) && Utf8.Valid(pass) && |name| <= 0xFFFF && |pass| <= 0xFFFF
    ensures Deserialize(Serialize(CreateRoom(name, pass))) == Ok(CreateRoom(name, pass))
        <==> forall i :: 0 <= i < |pass| ==> pass[i] == 0
  {
    CreateRoomAsWritten(name, pass);
    if forall i :: 0 <= i < |pass| ==> pass[i] == 0 {
      forall i | 0 <= i < |pass| ensures Garbled(pass)[i] == pass[i] {
      }
      assert Garbled(pass) == pass;
    }
    if Deserialize(Serialize(CreateRoom(name, pass))) == Ok(CreateRoom(name, pass)) {
      assert Garbled(pass) == pass;
      forall i | 0 <= i < |pass| ensures pass[i] == 0 {
        GarbledFixedPointIsZero(pass, i);
      }
    }
  }

  lemma CreateRoomEmptyPasswordRoundTrip(name: Bytes)
    requires Utf8.Valid(name) && |name| <= 0xFFFF
    ensures Deserialize(Serialize(CreateRoom(name, []))) == Ok(CreateRoom(name, []))
  {
    CreateRoomRoundTripIff(name, []);
  }

  /** A room "r" with password "pw" arrives with the password [0, 0]. */
  lemma CreateRoomGarblesPassword()
    ensures Deserialize(Serialize(CreateRoom([0x72], [0x70, 0x77]))) == Ok(CreateRoom([0x72], [0, 0]))
  {
    CreateRoomAsWritten([0x72], [0x70, 0x77]);
    assert Garbled([0x70, 0x77]) == [0, 0];
  }

  /**
   * An ASCII password always gets through, garbled: the zero bytes and the
   * password bytes that make up `Garbled(pass)` are ASCII as well.
   */
  lemma CreateRoomAsciiPassword(name: Bytes, pass: Bytes)
    requires Utf8.Valid(name) && |name| <= 0xFFFF && |pass| <= 0xFFFF
    requires forall i :: 0 <= i < |pass| ==> pass[i] < 0x80
    ensures Deserialize(Serialize(CreateRoom(name, pass))) == Ok(CreateRoom(name, Garbled(pass)))
  {
    var g := Garbled(pass);
    forall i | 0 <= i < |g| ensures g[i] < 0x80 {
      if i >= 6 {
        assert g[i] == pass[i - 6];
      }
    }
    Utf8.AsciiValid(g);
    CreateRoomDecodes(name, pass);
  }

  /** Which decoder each tag is handed to, once its arm's guard holds. */
  lemma DeserializeArms(p: Bytes)
    requires p != []
    ensures p[0] == HANDSHAKE && |p| >= 3 ==> Deserialize(p) == DecodeHandshake(p)
    ensures p[0] == ACK ==> Deserialize(p) == DecodeAck(p)
    ensures p[0] == CREATE_ROOM && |p| > 5 ==> Deserialize(p) == DecodeCreateRoom(p)
    ensures p[0] == JOIN_ROOM && |p| >= 7 ==> Deserialize(p) == DecodeJoinRoom(p)
  {
  }

  /**
   * Decoding ignores trailing bytes: for every message but CreateRoom,
   * re-serializing what was decoded gives back the bytes it was read from.
   */
  lemma DecodeThenSerialize(packet: Bytes)
    requires Deserialize(packet).Ok? && !Deserialize(packet).msg.CreateRoom?
    ensures var s := Serialize(Deserialize(packet).msg); |s| <= |packet| && s == packet[..|s|]
  {
    DeserializeArms(packet);
    match Deserialize(packet).msg
    case Ping =>
    case Handshake(_) => HandshakePrefix(packet);
    case Ack(_) => IdPrefix(packet);
    case Leave(_) => IdPrefix(packet);
    case JoinRoom(_, _) => JoinRoomPrefix(packet);
  }

  lemma HandshakePrefix(packet: Bytes)
    requires |packet| >= 3 && packet[0] == HANDSHAKE && DecodeHandshake(packet).Ok?
    ensures var s := Serialize(DecodeHandshake(packet).msg); |s| <= |packet| && s == packet[..|s|]
  {
    var n := U16At(packet, 1);
    var name := packet[3..3 + n];
    assert DecodeHandshake(packet).msg == Handshake(name);
    SmallMod16(n);
    Le16Encodes(packet, 1);
    assert packet[..3 + n] == [packet[0]] + packet[1..3] + packet[3..3 + n];
  }

  lemma IdPrefix(packet: Bytes)
    requires |packet| >= 5 && (packet[0] == ACK || packet[0] == LEAVE)
    ensures var m := if packet[0] == ACK then Ack(U32At(packet, 1)) else Leave(U32At(packet, 1));
      Serialize(m) == packet[..5]
  {
    Le32Encodes(packet, 1);
    assert packet[..5] == [packet[0]] + packet[1..5];
  }

  lemma JoinRoomPrefix(packet: Bytes)
    requires |packet| >= 7 && packet[0] == JOIN_ROOM && DecodeJoinRoom(packet).Ok?
    ensures var s := Serialize(DecodeJoinRoom(packet).msg); |s| <= |packet| && s == packet[..|s|]
  {
    var n := U16At(packet, 5);
    assert DecodeJoinRoom(packet).msg == JoinRoom(U32At(packet, 1), packet[7..7 + n]);
    SmallMod16(n);
    Le32Encodes(packet, 1);
    Le16Encodes(packet, 5);
    assert packet[..7 + n] == [packet[0]] + packet[1..5] + packet[5..7] + packet[7..7 + n];
  }

  /** Whatever decodes holds well-formed UTF-8 strings, as a Rust `Message` must. */
  lemma DecodedWellFormed(packet: Bytes)
    requires Deserialize(packet).Ok?
    ensures WellFormed(Deserialize(packet).msg)
  {
  }

  // ---------------------------------------------------------------------
  // Error paths

  /** Tags without an arm (4, 7, 8 and everything from 9 up) are rejected. */
  lemma UnhandledTagsRejected(packet: Bytes)
    requires packet != []
    requires packet[0] == REPLICATE || packet[0] == PLAYER_INPUT
          || packet[0] == ROOM_SNAPSHOT || packet[0] >= 9
    ensures Deserialize(packet) == Err(UnknownCommand(packet[0], |packet|))
  {
  }

  /** A packet that fails its arm's length guard falls through to the same error. */
  lemma GuardFailuresRejected(packet: Bytes)
    requires packet != []
    requires (packet[0] == HANDSHAKE && |packet| < 3) || (packet[0] == LEAVE && |packet| < 5)
          || (packet[0] == CREATE_ROOM && |packet| <= 5) || (packet[0] == JOIN_ROOM && |packet| < 7)
    ensures Deserialize(packet) == Err(UnknownCommand(packet[0], |packet|))
  {
  }

  /** A declared string length that runs past the packet is an error, not a panic. */
  lemma DeclaredLengthChecked(packet: Bytes)
    requires packet != []
    ensures packet[0] == HANDSHAKE && |packet| >= 3 && |packet| < 3 + U16At(packet, 1)
      ==> Deserialize(packet) == Err(MissingName)
    ensures packet[0] == JOIN_ROOM && |packet| >= 7 && |packet| < 7 + U16At(packet, 5)
      ==> Deserialize(packet) == Err(TooShortForJoinRoom)
    ensures packet[0] == CREATE_ROOM && |packet| > 5 && |packet| < 3 + U16At(packet, 1) + 2
      ==> Deserialize(packet) == Err(TooShort)
  {
  }

  /** Ill-formed UTF-8 in a handshake name or a join password is an error, not a panic. */
  lemma InvalidUtf8Rejected(packet: Bytes)
    requires packet != []
    ensures packet[0] == HANDSHAKE && |packet| >= 3 && 3 + U16At(packet, 1) <= |packet|
        && !Utf8.Valid(packet[3..3 + U16At(packet, 1)])
      ==> Deserialize(packet) == Err(InvalidUtf8)
    ensures packet[0] == JOIN_ROOM && |packet| >= 7 && 7 + U16At(packet, 5) <= |packet|
        && !Utf8.Valid(packet[7..7 + U16At(packet, 5)])
      ==> Deserialize(packet) == Err(InvalidUtf8)
    ensures packet[0] == CREATE_ROOM && |packet| > 5 && 5 + U16At(packet, 1) <= |packet|
        && !Utf8.Valid(packet[3..3 + U16At(packet, 1)])
      ==> Deserialize(packet) == Err(InvalidUtf8)
  {
  }

  /** The two reads the source leaves unchecked. */
  predicate UncheckedRead(packet: Bytes)
    requires packet != []
  {
    || (packet[0] == ACK && |packet| < 5)
    || (packet[0] == CREATE_ROOM && |packet| > 5 && 5 + U16At(packet, 1) <= |packet|
        && Utf8.Valid(packet[3..3 + U16At(packet, 1)])
        && 5 + U16At(packet, 1) + U16At(packet, 3 + U16At(packet, 1)) > |packet|)
  }

  /** `deserialize` panics exactly on the two unchecked reads. */
  lemma PanicsExactlyOnUncheckedReads(packet: Bytes)
    requires packet != []
    ensures Deserialize(packet).Panic? <==> UncheckedRead(packet)
  {
  }

  /** A bare ACK tag panics; so does a room with an empty name and an overlong password. */
  lemma UncheckedReadsPanic()
    ensures Deserialize([ACK]) == Panic
    ensures Deserialize([CREATE_ROOM, 0, 0, 3, 0, 0x41]) == Panic
  {
    assert U16At([CREATE_ROOM, 0, 0, 3, 0, 0x41], 3) == 3;
  }
}
