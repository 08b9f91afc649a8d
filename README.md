# A verified model of the games-series networking core

This project models, in Dafny, the sequential core of a small game collection.
- **The UDP server of the roguelike** (Rust):
  - the binary wire codec, `Message::serialize` and `Message::deserialize`;
  - the server's player table and id counter;
  - the handshake id assignment of `accept_client`;
  - the recipient filter of `broadcast_handler`;
  - the empty-packet guard of `process_client_message`.
- **The roguelike's Godot client** (C#):
  - the receive dispatch of `NetworkClient._Process`;
  - the connection bookkeeping of `NetworkManagement`;
  - the session state of `ClientStateManager`;
  - the two room classes and the player entity.
- **The score counters of the Pong and platformer games.**

The protocol has one tag byte followed by little-endian fields. Strings are UTF-8 bytes behind a length prefix.

The model keeps the codec as written, defects included:
- CreateRoom writes its password length as an 8-byte `usize` (message.rs:83) but reads it back as a 2-byte `u16` (message.rs:153-154). For a UTF-8 name and a UTF-8 password of at most 65535 bytes each, a room therefore survives the round trip exactly when its password consists of NUL bytes only, which is always true of an empty password (`Wire.CreateRoomRoundTripIff`). For any other password, the decoder reads the six high zero bytes of the length as the start of the password (`Wire.Garbled`).
- Two reads are unchecked and panic:
  - an ACK shorter than five bytes;
  - a CreateRoom whose password runs past the end of the packet.

  Both are an explicit `Decoded.Panic` outcome (`Wire.PanicsExactlyOnUncheckedReads`).
- The client reads the ERROR length as a signed `Int16`. A negative length passes both length checks, and `Encoding.UTF8.GetString` then throws (`ClientNet.NegativeErrorLengthThrows`).
- An empty datagram makes `packet[0]` throw. Both exceptions escape `_Process` and are modelled as `Outcome.Threw`.

Further facts about the source that the model reproduces:
- The JoinRoom request is the tag, the `u32` room id, a `u16` password length and the password (message.rs:88-95 and 162-179).
- `deserialize` returns `Err` for most malformed packets, but the two unchecked reads above panic the task that decodes (message.rs:129-132 and 155-156).
- An exception thrown in the client's `_Process` escapes the frame (NetworkClient.cs:37-60).
- A LEAVE response only logs the player id; it does not change any client state (NetworkClient.cs:85-91).

Layout, one module per source file:

| module | file | models |
|---|---|---|
| `Octets` | octets.dfy | bytes, fixed-width integers, little-endian encoding and decoding, C# `int` wrap-around |
| `Utf8` | utf8.dfy | well-formed UTF-8 (Table 3-7 of the Unicode Standard), what `String::from_utf8` accepts |
| `ServerCommands`, `ClientGlobal` | commands.dfy | the tag constants of `globals.rs` and the `Global` enum of `global.cs` |
| `Optional` | option.dfy | `Option` |
| `Wire` | wire.dfy | `message.rs` |
| `Server` | server.dfy | `server.rs`, with `game/player.rs` and `game/room.rs` as data |
| `Roster` | roster.dfy | the dictionary store and remove that both room classes perform |
| `ClientEntities` | entities.dfy | `entities/player.cs`, `entities/room.cs` |
| `RoomNode` | room_node.dfy | `Room.cs` |
| `ClientState` | client_state.dfy | `ClientStateManager.cs` |
| `NetManagement` | network_management.dfy | `NetworkManagement.cs` |
| `ClientNet` | network_client.dfy | `NetworkClient.cs` |
| `Decimal` | decimal.dfy | `int.ToString()` as used by the score labels |
| `PongScore` | pong_score.dfy | `pong_2d/scripts/ScoreManager.cs` |
| `CoinGame` | coin_game.dfy | `platformer_2d/scripts/GameManager.cs` |

The abstractions:
- **Stateful objects** (the server context, the client objects, the score managers) are classes whose methods carry `modifies` clauses.
- **Sockets** are fields of the object that owns them:
  - datagrams sent become an outbox;
  - datagrams waiting become an inbox;
  - Godot signals, events and the requests forwarded to other objects become logs.
- **Bytes** are the integers 0..255 (an `int` subtype), not `bv8`.
- **The engine clock** `Time.GetTicksMsec()` is a parameter `now`.
- **Floats** (`Vector2` positions) are reals.

## Model

| member | source | states |
|---|---|---|
| `Octets.LeBytes` | roguelike/server_udp/src/network/message.rs:54-95 | `to_le_bytes` of the low n bytes yields exactly n bytes; `Le16Decodes` and `Le32Decodes` read them back |
| `Octets.Le16` | roguelike/server_udp/src/network/message.rs:54-95 | `(x as u16).to_le_bytes()` is two bytes |
| `Octets.Le32` | roguelike/server_udp/src/network/message.rs:67-92 | `u32::to_le_bytes` is four bytes |
| `Octets.Le64` | roguelike/server_udp/src/network/message.rs:83 | `usize::to_le_bytes` is eight bytes |
| `Octets.U16At` | roguelike/server_udp/src/network/message.rs:113-173 | `u16::from_le_bytes` takes the low byte first: the value's low byte is `s[i]` and its high byte `s[i + 1]` |
| `Octets.U32At` | roguelike/server_udp/src/network/message.rs:130-168 | `u32::from_le_bytes` takes the low 16-bit half first |
| `Octets.I16At` | roguelike/roguelike_client/scripts/NetworkClient.cs:43 | `BitConverter.ToInt16` agrees with the unsigned reading modulo 2^16 and is negative exactly when the high byte's top bit is set |
| `Octets.I32At` | roguelike/roguelike_client/scripts/NetworkClient.cs:74 | `BitConverter.ToInt32` agrees with the unsigned reading modulo 2^32 and is negative exactly when the last byte's top bit is set |
| `Octets.Le16Decodes` | roguelike/server_udp/src/network/message.rs:54-57 | reading back a length written through `as u16` and `to_le_bytes` gives the length modulo 2^16 |
| `Octets.Le16Encodes` | roguelike/server_udp/src/network/message.rs:113 | re-encoding a `u16` read with `from_le_bytes` gives back its two bytes |
| `Octets.Le32Decodes` | roguelike/server_udp/src/network/message.rs:67 | a `u32` written little-endian reads back unchanged |
| `Octets.Le32Encodes` | roguelike/server_udp/src/network/message.rs:130 | re-encoding a `u32` read little-endian gives back its four bytes |
| `Octets.Le16DecodesAt` | roguelike/server_udp/src/network/message.rs:57 | an encoded `u16` reads back wherever it sits in a packet |
| `Octets.Le32DecodesAt` | roguelike/server_udp/src/network/message.rs:67 | an encoded `u32` reads back wherever it sits in a packet |
| `Octets.Le32Halves` | roguelike/server_udp/src/network/message.rs:67 | a `u32` encoding is the encodings of its low and high 16-bit halves |
| `Octets.Le64Small` | roguelike/server_udp/src/network/message.rs:83 | a `usize` below 2^16 is written as its two low bytes followed by six zero bytes |
| `Octets.Signed32` | roguelike/roguelike_client/scripts/NetworkClient.cs:74 | the two's-complement reading agrees with the unsigned value modulo 2^32 and equals it up to `int.MaxValue` |
| `Octets.Signed16` | roguelike/roguelike_client/scripts/NetworkClient.cs:43 | the two's-complement reading agrees with the unsigned value modulo 2^16 |
| `Octets.Inc32` | pong_2d/scripts/ScoreManager.cs:13 | unchecked `++` adds one below `int.MaxValue` and wraps to `int.MinValue` at it |
| `Octets.IncWrap32` | pong_2d/scripts/ScoreManager.cs:13 | one more unchecked increment of a counter is one more step of the wrapped call count |
| `Octets.Wrap32Small` | platformer_2d/scripts/GameManager.cs:17 | until it wraps, a counter incremented n times from 0 holds n |
| `Octets.LeBytesOfZero` | roguelike/server_udp/src/network/message.rs:83 | every byte of the encoding of 0 is 0 |
| `Utf8.AsciiValid` | roguelike/server_udp/src/network/message.rs:123 | bytes below 0x80, NUL included, are well-formed UTF-8 |
| `ClientGlobal.TablesAgree` | roguelike/roguelike_client/scripts/config/global.cs:1-13 | the client enum and the server's constants (server_udp/src/config/globals.rs) agree on tags 0-8; only the client defines `ERROR = 9` |
| `ClientGlobal.CodeInjective` | roguelike/roguelike_client/scripts/config/global.cs:1-13 | no two enum members share a byte |
| `Wire.Tag` | roguelike/server_udp/src/network/message.rs:48-95 | every message is sent under a tag at most JOIN_ROOM, never REPLICATE: one that `deserialize` has an arm for |
| `Wire.Serialize` | roguelike/server_udp/src/network/message.rs:48-100 | every packet starts with its message's tag; Ack and Leave are five bytes |
| `Wire.Deserialize` | roguelike/server_udp/src/network/message.rs:102-190 | `EmptyPacket` exactly for the empty packet; a decoded message carries the packet's first byte as its tag; panics only on ACK and CREATE_ROOM |
| `Wire.HandshakeName` | roguelike/server_udp/src/network/message.rs:123-126 | the handshake name converts if and only if it is well-formed UTF-8, giving `Handshake(name)`; otherwise the UTF-8 error |
| `Wire.DecodeHandshake` | roguelike/server_udp/src/network/message.rs:111-127 | yields a Handshake or an error, never a panic |
| `Wire.DecodeAck` | roguelike/server_udp/src/network/message.rs:129-132 | panics exactly when the packet is shorter than five bytes |
| `Wire.DecodeCreateRoom` | roguelike/server_udp/src/network/message.rs:140-160 | a successful decode is a CreateRoom |
| `Wire.DecodeJoinRoom` | roguelike/server_udp/src/network/message.rs:162-179 | yields a JoinRoom or an error, never a panic |
| `Wire.PingCodec` | roguelike/server_udp/src/network/message.rs:50-109 | Ping is the single byte 0, and any packet starting with 0 decodes to Ping whatever follows |
| `Wire.HandshakeFields` | roguelike/server_udp/src/network/message.rs:111-127 | a packet holding a length and a name decodes to that name, or to the UTF-8 error |
| `Wire.JoinRoomFields` | roguelike/server_udp/src/network/message.rs:162-179 | a packet holding an id, a length and a password decodes to them, or to the UTF-8 error |
| `Wire.CreateRoomFields` | roguelike/server_udp/src/network/message.rs:140-160 | a packet holding both length-prefixed strings decodes to them, or to the UTF-8 error |
| `Wire.HandshakeLayout` | roguelike/server_udp/src/network/message.rs:51-63 | a serialized handshake holds the name cut to its length modulo 2^16 where the decoder reads it |
| `Wire.HandshakeDecodesTruncated` | roguelike/server_udp/src/network/message.rs:54-126 | for every name, the round trip gives the name cut by the `as u16` truncation, or the UTF-8 error when the cut splits a character |
| `Wire.HandshakeDecodes` | roguelike/server_udp/src/network/message.rs:51-127 | a name of at most 65535 bytes reads back whole when it is UTF-8, and otherwise gives the UTF-8 error |
| `Wire.HandshakeRoundTrip` | roguelike/server_udp/src/network/message.rs:51-127 | `deserialize(serialize(Handshake(name))) == Handshake(name)` for UTF-8 names of at most 65535 bytes |
| `Wire.IdMessagesRoundTrip` | roguelike/server_udp/src/network/message.rs:65-138 | Ack and Leave are the tag followed by `le32(id)`, and both read back to the same id |
| `Wire.JoinRoomLayout` | roguelike/server_udp/src/network/message.rs:88-95 | a serialized join request holds its id, password length and password where the decoder reads them |
| `Wire.JoinRoomDecodes` | roguelike/server_udp/src/network/message.rs:88-179 | a join request with a password of at most 65535 bytes reads back, or gives the UTF-8 error |
| `Wire.JoinRoomRoundTrip` | roguelike/server_udp/src/network/message.rs:88-179 | JoinRoom round-trips for UTF-8 passwords of at most 65535 bytes |
| `Wire.Garbled` | roguelike/server_udp/src/network/message.rs:152-156 | what the decoder takes for the password has the password's length |
| `Wire.CreateRoomLayout` | roguelike/server_udp/src/network/message.rs:76-87 | a serialized CreateRoom is 11 + name + password bytes long and holds the name and the garbled password where the decoder reads them |
| `Wire.CreateRoomNameField` | roguelike/server_udp/src/network/message.rs:81-82 | the name length and the name sit at offsets 1 and 3 whatever follows |
| `Wire.CreateRoomPasswordAfter` | roguelike/server_udp/src/network/message.rs:83-84 | the decoder reads the true password length, then the garbled password, whatever precedes them |
| `Wire.CreateRoomPasswordField` | roguelike/server_udp/src/network/message.rs:153-156 | the `u16` read at the `usize` field is the password length, and the slice after it is the garbled password |
| `Wire.CreateRoomDecodes` | roguelike/server_udp/src/network/message.rs:76-160 | the CreateRoom round trip as written gives the name and the garbled password, or the UTF-8 error |
| `Wire.CreateRoomAsWritten` | roguelike/server_udp/src/network/message.rs:76-160 | for a well-formed room, what arrives is the room with the garbled password |
| `Wire.GarbledFixedPointIsZero` | roguelike/server_udp/src/network/message.rs:152-156 | a password that the garbling leaves unchanged consists of NUL bytes |
| `Wire.CreateRoomRoundTripIff` | roguelike/server_udp/src/network/message.rs:76-160 | for a UTF-8 name and a UTF-8 password of at most 65535 bytes each, CreateRoom round-trips if and only if its password is all NUL bytes |
| `Wire.CreateRoomEmptyPasswordRoundTrip` | roguelike/server_udp/src/network/message.rs:76-160 | a room with an empty password round-trips |
| `Wire.CreateRoomAsciiPassword` | roguelike/server_udp/src/network/message.rs:76-160 | an ASCII password with a UTF-8 name always decodes, to the room with the garbled password |
| `Wire.CreateRoomGarblesPassword` | roguelike/server_udp/src/network/message.rs:83-156 | room "r" with password "pw" arrives with the password `[0, 0]` |
| `Wire.DeserializeArms` | roguelike/server_udp/src/network/message.rs:108-179 | which decoder each tag is handed to once its guard holds |
| `Wire.DecodeThenSerialize` | roguelike/server_udp/src/network/message.rs:48-190 | for every decoded message but CreateRoom, re-serializing gives back the bytes it was read from (trailing bytes are ignored) |
| `Wire.HandshakePrefix` | roguelike/server_udp/src/network/message.rs:111-127 | a decoded handshake re-serializes to the packet's prefix |
| `Wire.IdPrefix` | roguelike/server_udp/src/network/message.rs:129-138 | a decoded Ack or Leave re-serializes to the packet's first five bytes |
| `Wire.JoinRoomPrefix` | roguelike/server_udp/src/network/message.rs:162-179 | a decoded join request re-serializes to the packet's prefix |
| `Wire.DecodedWellFormed` | roguelike/server_udp/src/network/message.rs:123-176 | every string of a decoded message is well-formed UTF-8 |
| `Wire.UnhandledTagsRejected` | roguelike/server_udp/src/network/message.rs:181-188 | tags 4, 7, 8 and 9 upward give the unknown-command error |
| `Wire.GuardFailuresRejected` | roguelike/server_udp/src/network/message.rs:111-188 | Handshake under 3 bytes, Leave under 5, CreateRoom of 5 or fewer and JoinRoom under 7 give the unknown-command error |
| `Wire.DeclaredLengthChecked` | roguelike/server_udp/src/network/message.rs:115-173 | a declared length running past the packet gives the arm's too-short error (Handshake `3+len`, JoinRoom `7+len`, CreateRoom name `3+len+2`) |
| `Wire.InvalidUtf8Rejected` | roguelike/server_udp/src/network/message.rs:123-176 | ill-formed UTF-8 in a name or a checked password gives the UTF-8 error, not a panic |
| `Wire.PanicsExactlyOnUncheckedReads` | roguelike/server_udp/src/network/message.rs:129-156 | the decoder panics if and only if the packet is a short ACK or a CreateRoom whose password runs past the end |
| `Wire.UncheckedReadsPanic` | roguelike/server_udp/src/network/message.rs:129-156 | a bare ACK tag panics, and so does a room with an empty name and an overlong password |
| `Server.NewPlayer` | roguelike/server_udp/src/game/player.rs:22-27 | the new player has the given id and zero position and velocity |
| `Server.NextId` | roguelike/server_udp/src/server.rs:146-148 | `fetch_add(1)` advances the counter by one and wraps `u32::MAX` to 0 |
| `Server.FreshRegistry` | roguelike/server_udp/src/server.rs:42-50 | a fresh context has counter 1 and an empty player table |
| `Server.Accept` | roguelike/server_udp/src/server.rs:142-154 | the address ends up registered under the acknowledged id; the keys grow by exactly that address, and no existing entry is overwritten |
| `Server.FreshRegistryValid` | roguelike/server_udp/src/server.rs:42-50 | a fresh context satisfies the id invariant |
| `Server.AcceptKnown` | roguelike/server_udp/src/server.rs:142-143 | a known address gets its existing id, and the table and counter are unchanged |
| `Server.AcceptNew` | roguelike/server_udp/src/server.rs:144-151 | an unknown address gets id = counter; the counter advances by one modulo 2^32; exactly one entry is added under that address |
| `Server.AcceptIdempotent` | roguelike/server_udp/src/server.rs:142-143 | a repeated handshake from the same address gives the same id and changes nothing |
| `Server.AcceptPreservesValid` | roguelike/server_udp/src/server.rs:144-151 | ids stay pairwise distinct and between 1 and counter - 1 while the counter is below `u32::MAX` |
| `Server.AcceptDistinctIds` | roguelike/server_udp/src/server.rs:144-151 | for any registry satisfying the id invariant, including one whose counter is about to wrap, two different addresses accepted in turn get different ids |
| `Server.CounterWraps` | roguelike/server_udp/src/server.rs:146-148 | at `u32::MAX` the counter wraps to 0, so the invariant cannot be kept past 2^32 - 1 players |
| `Server.AckReply` | roguelike/server_udp/src/server.rs:143-156 | the reply is `[ACK] ++ le32(id)` and reads back as `Ack(id)` |
| `Server.Recipients` | roguelike/server_udp/src/server.rs:84-85 | an address is a recipient if and only if it is registered and not the excluded one |
| `Server.RecipientsCount` | roguelike/server_udp/src/server.rs:84-85 | with `None` everyone is a recipient; excluding a registered address drops exactly one |
| `Server.Deliveries` | roguelike/server_udp/src/server.rs:84-89 | at most one datagram per visited address, each carrying the broadcast message |
| `Server.Delivery` | roguelike/server_udp/src/server.rs:85-88 | one address receives either nothing or exactly the message |
| `Server.DeliveriesSnoc` | roguelike/server_udp/src/server.rs:84-89 | visiting one more address appends what that address receives |
| `Server.BroadcastStep` | roguelike/server_udp/src/server.rs:84-89 | one turn of the broadcast loop extends what was sent by the next address's delivery |
| `Server.DeliveriesReach` | roguelike/server_udp/src/server.rs:84-89 | in any iteration order, the broadcast reaches exactly the recipients whose send succeeds, each once; a failed send does not stop the loop |
| `Server.ServerContext.constructor` | roguelike/server_udp/src/server.rs:42-50 | counter 1, no players, no rooms, nothing sent |
| `Server.ServerContext.AcceptClient` | roguelike/server_udp/src/server.rs:135-160 | the table and counter change as `Accept` says; Ack(id) is sent to the client unless the send fails; on failure the player stays registered |
| `Server.ServerContext.Broadcast` | roguelike/server_udp/src/server.rs:82-90 | the datagrams sent are exactly `Deliveries` in the table's iteration order |
| `Server.ServerContext.ProcessClientMessage` | roguelike/server_udp/src/server.rs:119-133 | an empty packet is dropped without decoding; any other packet is decoded and changes nothing, and never yields the empty-packet error |
| `Roster.Put` | roguelike/roguelike_client/scripts/entities/room.cs:16-19 | the key maps to the new value, the keys grow by at most that key, and other entries are unchanged |
| `Roster.Drop` | roguelike/roguelike_client/scripts/entities/room.cs:21-24 | exactly that key goes and every other entry stays |
| `Roster.PutIdempotent` | roguelike/roguelike_client/scripts/entities/room.cs:18 | adding the same player twice is adding once |
| `Roster.PutOverwrites` | roguelike/roguelike_client/scripts/entities/room.cs:18 | a second player under the same id replaces the first |
| `Roster.PutSize` | roguelike/roguelike_client/scripts/entities/room.cs:18 | the table grows by one exactly when the id is new |
| `Roster.DropSize` | roguelike/roguelike_client/scripts/entities/room.cs:23 | removing an absent id is a no-op; removing a present one shrinks the table by one |
| `Roster.PutThenDrop` | roguelike/roguelike_client/scripts/entities/room.cs:16-24 | add then remove leaves the id absent and all other ids as before |
| `ClientEntities.Player.constructor` | roguelike/roguelike_client/scripts/entities/player.cs:5-16 | sets id, name and last activity from the clock; position stays zero and `Connected` stays false |
| `ClientEntities.Player.UpdatePosition` | roguelike/roguelike_client/scripts/entities/player.cs:18-22 | position becomes exactly the argument; last activity is the clock reading and does not decrease under a monotone clock; id, name and connection are unchanged |
| `ClientEntities.Room.constructor` | roguelike/roguelike_client/scripts/entities/room.cs:8-14 | id and name from the arguments, no players |
| `ClientEntities.Room.AddPlayer` | roguelike/roguelike_client/scripts/entities/room.cs:16-19 | `Players` becomes `Put(Players, user.PlayerId, user)` |
| `ClientEntities.Room.RemovePlayer` | roguelike/roguelike_client/scripts/entities/room.cs:21-24 | `Players` becomes `Drop(Players, playerId)` |
| `RoomNode.Room.constructor` | roguelike/roguelike_client/scripts/Room.cs:10-14 | id and name from the arguments, no players |
| `RoomNode.Room.Default` | roguelike/roguelike_client/scripts/Room.cs:6-19 | the parameterless constructor leaves id -1, an empty name and no players |
| `RoomNode.Room.AddPlayer` | roguelike/roguelike_client/scripts/Room.cs:21-24 | `Players` becomes `Put(Players, user.PlayerId, user)` |
| `RoomNode.Room.RemovePlayer` | roguelike/roguelike_client/scripts/Room.cs:26-29 | `Players` becomes `Drop(Players, playerId)` |
| `ClientState.ClientStateManager.constructor` | roguelike/roguelike_client/scripts/ClientStateManager.cs:7-10 | no local player, no room, last processed sequence -1 |
| `ClientState.ClientStateManager.UpdateConnectionStatus` | roguelike/roguelike_client/scripts/ClientStateManager.cs:18-32 | connecting replaces the local player by a fresh one with that id and name and leaves room and sequence alone; disconnecting clears player and room and resets the sequence to -1; a null room stays null |
| `ClientState.ClientStateManager.AddPlayerToCurrentRoom` | roguelike/roguelike_client/scripts/ClientStateManager.cs:34-42 | a no-op without a room or when the id is present; otherwise exactly one fresh entry is added under that id and nothing else changes |
| `ClientState.ClientStateManager.SetCurrentRoom` | roguelike/roguelike_client/scripts/ClientStateManager.cs:44-47 | with a room, only its id changes; with none, the dereference throws |
| `ClientState.ClientStateManager.RemovePlayerFromCurrentRoom` | roguelike/roguelike_client/scripts/ClientStateManager.cs:49-56 | a no-op without a room; otherwise only that id is removed |
| `NetManagement.NetworkManagement.constructor` | roguelike/roguelike_client/scripts/NetworkManagement.cs:12-14 | username `""`, not connected, player id -1 |
| `NetManagement.NetworkManagement.UpdateConnectionStatus` | roguelike/roguelike_client/scripts/NetworkManagement.cs:25-31 | stores both values and emits exactly one `ConnectionStatusChanged` carrying them |
| `NetManagement.NetworkManagement.ConnectToServer` | roguelike/roguelike_client/scripts/NetworkManagement.cs:33-37 | records the username and forwards it; connection and id are unchanged |
| `NetManagement.NetworkManagement.DisconnectToServer` | roguelike/roguelike_client/scripts/NetworkManagement.cs:39-43 | clears `Connected` and forwards the request; id and name are unchanged; no signal is emitted, so the last signal still says "connected" |
| `ClientNet.GlobalOf` | roguelike/roguelike_client/scripts/NetworkClient.cs:37 | the byte names an enum member exactly when it is at most 9, and then that member's value is the byte |
| `ClientNet.ErrorArm` | roguelike/roguelike_client/scripts/NetworkClient.cs:39-60 | the ERROR arm throws the argument exception exactly for a packet of three bytes or more with a negative Int16 length; otherwise it only logs, never replying or reporting a connection |
| `ClientNet.JoinRoomArm` | roguelike/roguelike_client/scripts/NetworkClient.cs:101-116 | the JOIN_ROOM arm never lets an exception out and never replies or reports; from three bytes up it logs either the joined room's name or the failure |
| `ClientNet.Dispatch` | roguelike/roguelike_client/scripts/NetworkClient.cs:37-121 | an empty datagram throws; only PING replies, and the reply is `[0]`; only an ACK of five bytes or more reports a connection; only ERROR can throw the argument exception |
| `ClientNet.PingAnswered` | roguelike/roguelike_client/scripts/NetworkClient.cs:62-69 | a PING produces exactly one outgoing datagram, `[0]`, and nothing else |
| `ClientNet.AckReports` | roguelike/roguelike_client/scripts/NetworkClient.cs:71-83 | an ACK of five bytes or more reports `(true, Int32 at offset 1)`; a shorter one has no effect |
| `ClientNet.IdResponsesLogged` | roguelike/roguelike_client/scripts/NetworkClient.cs:85-99 | LEAVE and CREATE_ROOM responses of five bytes or more log the Int32 at offset 1 (player id or room id); shorter ones do nothing |
| `ClientNet.ErrorResponses` | roguelike/roguelike_client/scripts/NetworkClient.cs:39-60 | the text is decoded exactly when the length is at least 3 and the signed Int16 length is non-negative and fits; a negative length throws; the other cases log "too short" |
| `ClientNet.NegativeErrorLengthThrows` | roguelike/roguelike_client/scripts/NetworkClient.cs:43-47 | `[9, 0xFF, 0xFF]` declares length -1, passes both checks, and `GetString` throws |
| `ClientNet.JoinRoomResponses` | roguelike/roguelike_client/scripts/NetworkClient.cs:101-116 | from three bytes up, the name delimited by the Int32 at offset 1 is read from offset 5, or the out-of-range read is caught and logged; nothing propagates |
| `ClientNet.UnknownTagsLogged` | roguelike/roguelike_client/scripts/NetworkClient.cs:118-120 | tags without an arm are only logged |
| `ClientNet.ServerAckUnderstood` | roguelike/roguelike_client/scripts/NetworkClient.cs:71-77 | the server's `Ack(id)` is read back as id as a signed Int32, and as id itself up to `int.MaxValue` |
| `ClientNet.PingPong` | roguelike/roguelike_client/scripts/NetworkClient.cs:62-69 | the client's answer to the server's Ping decodes on the server as Ping |
| `ClientNet.NetworkClient.constructor` | roguelike/roguelike_client/scripts/NetworkClient.cs:10-15 | nothing sent, reported, logged or raised yet |
| `ClientNet.NetworkClient.Process` | roguelike/roguelike_client/scripts/NetworkClient.cs:30-125 | with nothing waiting, nothing happens; otherwise exactly one datagram is consumed; unless it throws, its reply, report and log take effect and `OnPacketReceived` is raised once with it |
| `ClientNet.NetworkClient.SendPacket` | roguelike/roguelike_client/scripts/NetworkClient.cs:127-130 | the datagram is put on the wire as it is |
| `Decimal.IntString` | pong_2d/scripts/ScoreManager.cs:22 | `int.ToString()` is an optional '-' (exactly for negatives) followed by digits |
| `Decimal.NatStringValue` | pong_2d/scripts/ScoreManager.cs:22 | the digits read back as the number written |
| `Decimal.NatStringLeading` | pong_2d/scripts/ScoreManager.cs:22 | there are no leading zeros |
| `Decimal.NatStringInjective` | pong_2d/scripts/ScoreManager.cs:22 | different natural numbers have different digits |
| `Decimal.IntStringInjective` | pong_2d/scripts/ScoreManager.cs:22 | the text of an `int` determines the `int` |
| `Decimal.IntStringPrefixInjective` | platformer_2d/scripts/GameManager.cs:19 | a number followed by a separator other than a digit or '-' can be read back off the text |
| `PongScore.ScoreText` | pong_2d/scripts/ScoreManager.cs:22 | the label's only '\|' sits right after the player score and its space, which is where a reader splits it |
| `PongScore.ScoreTextDetermines` | pong_2d/scripts/ScoreManager.cs:22 | `"{playerScore} \| {aiScore}"` determines both scores |
| `PongScore.Count` | pong_2d/scripts/ScoreManager.cs:11-18 | a side cannot be named more often than there were calls |
| `PongScore.PointsNeverExceedCalls` | pong_2d/scripts/ScoreManager.cs:9-18 | the two sides' points together never exceed the number of calls |
| `PongScore.ScoreStep` | pong_2d/scripts/ScoreManager.cs:11-18 | one call keeps each score equal to the wrapped count of calls naming its side |
| `PongScore.ScoreManager.constructor` | pong_2d/scripts/ScoreManager.cs:6-7 | both scores start at 0 |
| `PongScore.ScoreManager.OnBallUpdateScore` | pong_2d/scripts/ScoreManager.cs:9-23 | "Player" increments only the player score, "AI" only the AI score, and anything else neither; the label is `"{p} \| {a}"`; scores never decrease and their sum grows by at most one (below `int.MaxValue`); the scores count the calls |
| `CoinGame.CoinsText` | platformer_2d/scripts/GameManager.cs:19 | the label is 20 characters longer than the score's text, and the score sits between "You collected " and " coins" |
| `CoinGame.CoinsTextDetermines` | platformer_2d/scripts/GameManager.cs:19 | `"You collected " + score + " coins"` determines the score |
| `CoinGame.GameManager.constructor` | platformer_2d/scripts/GameManager.cs:6 | the score starts at 0 |
| `CoinGame.GameManager.AddPoint` | platformer_2d/scripts/GameManager.cs:15-20 | the score becomes the unchecked increment of the old score (one more below `int.MaxValue`, `int.MinValue` at it); the label shows the new score; the score stays the wrapped count of calls |
| `CoinGame.ScoreCountsCalls` | platformer_2d/scripts/GameManager.cs:15-20 | after n calls from the start, with n at most `int.MaxValue`, the score is n |

## Left out

- `Decimal.IntString` assumes the current culture's `NegativeSign` is '-', as in the invariant culture. `int.ToString()` at ScoreManager.cs:22 and GameManager.cs:19 uses the current culture, and other negative signs are not modelled.

- Sockets and the async runtime are left out, because they are I/O and concurrency:
  - `UdpSocket`, `tokio::spawn`, the mpsc broadcast channel, the `Mutex` around the player table, and the start-up timeout (`start_server`, `listen_handler`, `main.rs`);
  - Godot's `PacketPeerUdp` connect and close, and `_Ready`.

  `accept_client` and the broadcast loop are sequential methods over the table. Sending and receiving are outbox and inbox fields.
- The trace flag (`set_trace`, `trace`) and the `println!`, `eprintln!`, `GD.Print` and `GD.PrintErr` lines are left out as logging. The exceptions are the client's log lines that carry decoded data: they are the only effect of the LEAVE, CREATE_ROOM, JOIN_ROOM and ERROR arms, so they are kept as `ClientNet.Note` values.
- The ACK arm's log line dereferences the client state's local player (a `NullReferenceException` when there is none). It is not modelled, as part of the logging.
- `Encoding.UTF8.GetString` replaces ill-formed input instead of failing. The client's decoded texts are therefore kept as the bytes handed to it; the decoding itself is not modelled.
- PlayerInput, RoomSnapshot and Replicate have no codec in the source, so none is invented. The unreachable `_ => vec![]` arm of `serialize` has no counterpart.
- The server's Handshake arm is empty, and `accept_client` is never called. `AcceptClient` is modelled on its own; no end-to-end wiring is claimed.
- `Server.ServerContext.Broadcast`: the hash table's iteration order is unspecified, so the method takes it as an argument (any duplicate-free listing of the keys). `Server.DeliveriesReach` holds for every such order.
- Failed sends are inputs: `sendFails` to `AcceptClient`, and the `unreachable` set for `Broadcast`.
- The server's `rooms` table is never filled by the core, so no operation on it is modelled.
- `usize` is taken to be 64 bits, the targets the server is built for.
- `f32` and Godot `Vector2` values are reals. Float physics, engine movement and UI glue are left out: Ball, paddles, platformer player, slime, kill zone, coin, Welcome, Lobby, and the fps World.
- The two compile inconsistencies of the client are not reproduced:
  - `NetworkManagement.Instance` does not exist; the ACK arm's call to it is modelled as a recorded status report;
  - `NetworkClient` has no `ConnectToServer` or `DisconnectServer`; `NetworkManagement`'s calls to them are recorded as forwarded requests.

  `Player` and `Room` are each defined twice in the client. The model gives each file its own class, and both room classes hold the entity `Player`.
- The scene's initial label texts and `GetNode` lookups are not modelled. The initial text of a score label is a constructor argument, and a missing label node is not modelled.
- The prediction queue and input sequence of the client's `Player` node are declared but unused, so they are left out. The data-only records of `GameState.cs` and `inputAction.cs` are left out too.
