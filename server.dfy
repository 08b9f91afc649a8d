/**
 * The sequential core of the UDP server (server_udp/src/server.rs): the
 * player table and id counter of `ServerContext`, the id assignment of
 * `accept_client`, the recipient filter of `broadcast_handler` and the
 * empty-packet guard of `process_client_message`. The socket is an outbox
 * of datagrams; the tokio runtime, the mutex and the channel are left out.
 */
module Server {
  import opened Octets
  import Wire
  import opened Optional

  /** A `std::net::SocketAddr`: address bytes and port. */
  datatype SocketAddr = SocketAddr(ip: Bytes, port: U16)

  /** `cgmath::Vector2<f32>`, with reals standing for the floats. */
  datatype Vector2 = Vector2(x: real, y: real)

  /** The server's `Player` (game/player.rs). */
  datatype Player = Player(id: U32, pos: Vector2, velocity: Vector2)

  /** `Player::new(id)`: the default player with that id. */
  function NewPlayer(id: U32): (p: Player)
    ensures p.id == id && p.pos == Vector2(0.0, 0.0) && p.velocity == Vector2(0.0, 0.0)
  {
    Player(id, Vector2(0.0, 0.0), Vector2(0.0, 0.0))
  }

  /** The server's `Room` (game/room.rs). */
  datatype Room = Room(id: U32, roomName: Bytes, roomPass: Bytes, players: map<SocketAddr, Player>)

  /** One `send_to`: the payload and where it goes. */
  datatype Datagram = Datagram(payload: Bytes, to: SocketAddr)

  /** What `accept_client` works on: the player table and the id counter. */
  datatype Registry = Registry(players: map<SocketAddr, Player>, counter: U32)

  /** `AtomicU32::fetch_add(1)`: the stored value wraps around at 2^32. */
  function NextId(c: U32): (n: U32)
    ensures c < MAX_U32 ==> n == c + 1
    ensures c == MAX_U32 ==> n == 0
  {
    (c + 1) % 0x1_0000_0000
  }

  /** The table and counter of `ServerContext::new`. */
  function FreshRegistry(): (r: Registry)
    ensures r.counter == 1 && |r.players| == 0
  {
    Registry(map[], 1)
  }

  /**
   * The table never hands out an id twice, and every id lies in
   * 1 .. counter - 1: ids are drawn from a counter that starts at 1.
   */
  predicate Valid(r: Registry) {
    && 0 < r.counter
    && (forall a :: a in r.players ==> 0 < r.players[a].id < r.counter)
    && (forall a, b :: a in r.players && b in r.players && a != b ==> r.players[a].id != r.players[b].id)
  }

  datatype Accepted = Accepted(registry: Registry, id: U32)

  /**
   * The critical section of `accept_client`: a known address keeps its
   * player; an unknown one gets a new player whose id is taken from the
   * counter. Either way the address ends up registered under the id that
   * is acknowledged, and no other entry is touched.
   */
  function Accept(r: Registry, client: SocketAddr): (a: Accepted)
    ensures client in a.registry.players && a.registry.players[client].id == a.id
    ensures a.registry.players.Keys == r.players.Keys + {client}
    ensures forall b :: b in r.players ==> b in a.registry.players && a.registry.players[b] == r.players[b]
  {
    if client in r.players then
      Accepted(r, r.players[client].id)
    else
      Accepted(Registry(r.players[client := NewPlayer(r.counter)], NextId(r.counter)), r.counter)
  }

  /** A fresh context satisfies the invariant. */
  lemma FreshRegistryValid()
    ensures Valid(FreshRegistry())
  {
  }

  /** A known address is acknowledged with its existing id; table and counter are unchanged. */
  lemma AcceptKnown(r: Registry, client: SocketAddr)
    requires client in r.players
    ensures Accept(r, client) == Accepted(r, r.players[client].id)
  {
  }

  /**
   * An unknown address gets the current counter as its id, the counter
   * moves on by one (modulo 2^32), and exactly one entry is added.
   */
  lemma AcceptNew(r: Registry, client: SocketAddr)
    requires client !in r.players
    ensures Accept(r, client).id == r.counter
    ensures Accept(r, client).registry.counter == (r.counter + 1) % 0x1_0000_0000
    ensures Accept(r, client).registry.players == r.players[client := NewPlayer(r.counter)]
    ensures |Accept(r, client).registry.players| == |r.players| + 1
  {
    var after := Accept(r, client).registry.players;
    assert after.Keys == r.players.Keys + {client};
    assert client !in r.players.Keys;
  }

  /** Handshaking again from the same address gives the same id and adds nothing. */
  lemma AcceptIdempotent(r: Registry, client: SocketAddr)
    ensures var a := Accept(r, client); Accept(a.registry, client) == a
  {
  }

  /**
   * `accept_client` keeps ids distinct and below the counter, as long as
   * the counter has not reached `u32::MAX` (the next `fetch_add` would wrap
   * to 0).
   */
  lemma AcceptPreservesValid(r: Registry, client: SocketAddr)
    requires Valid(r) && r.counter < MAX_U32
    ensures Valid(Accept(r, client).registry)
  {
    if client !in r.players {
      var after := Accept(r, client).registry;
      forall a | a in after.players
        ensures 0 < after.players[a].id < after.counter
      {
      }
      forall a, b | a in after.players && b in after.players && a != b
        ensures after.players[a].id != after.players[b].id
      {
        if a == client {
          assert after.players[b].id == r.players[b].id < r.counter;
        } else if b == client {
          assert after.players[a].id == r.players[a].id < r.counter;
        }
      }
    }
  }

  /** Two different addresses accepted one after the other get different ids. */
  lemma AcceptDistinctIds(r: Registry, c1: SocketAddr, c2: SocketAddr)
    requires Valid(r) && c1 != c2
    ensures var a := Accept(r, c1); Accept(a.registry, c2).id != a.id
  {
    var a := Accept(r, c1);
    if c1 in r.players && c2 in r.players {
      assert a.registry == r;
    } else if c1 in r.players {
      assert a.id < r.counter == a.registry.counter;
    } else if c2 in r.players {
      assert a.registry.players[c2] == r.players[c2];
    } else {
      assert a.registry.counter == NextId(r.counter);
    }
  }

  /**
   * After 2^32 - 1 new players the counter wraps: the next unknown address
   * gets id `u32::MAX` and the one after it would get 0.
   */
  lemma CounterWraps(r: Registry, client: SocketAddr)
    requires client !in r.players && r.counter == MAX_U32
    ensures Accept(r, client).id == MAX_U32 && Accept(r, client).registry.counter == 0
  {
  }

  /** The acknowledgement `accept_client` sends: `[ACK] ++ le32(id)`, which reads back as `Ack(id)`. */
  lemma AckReply(id: U32)
    ensures Wire.Serialize(Wire.Ack(id)) == [2] + Le32(id)
    ensures Wire.Deserialize(Wire.Serialize(Wire.Ack(id))) == Wire.Ok(Wire.Ack(id))
  {
    Wire.IdMessagesRoundTrip(id);
  }

  /** The addresses `broadcast_handler` sends to: all registered ones except the excluded one. */
  function Recipients(registered: set<SocketAddr>, excluded: Option<SocketAddr>): (r: set<SocketAddr>)
    ensures forall a :: a in r <==> a in registered && excluded != Some(a)
  {
    if excluded.Some? then registered - {excluded.value} else registered
  }

  /** With no exclusion everyone is reached; excluding a registered address drops exactly it. */
  lemma RecipientsCount(registered: set<SocketAddr>, excluded: Option<SocketAddr>)
    ensures excluded == None ==> Recipients(registered, excluded) == registered
    ensures excluded.Some? && excluded.value in registered ==>
      |Recipients(registered, excluded)| == |registered| - 1
    ensures excluded.Some? && excluded.value !in registered ==>
      Recipients(registered, excluded) == registered
  {
  }

  /**
   * The datagrams the loop of `broadcast_handler` sends when it visits the
   * addresses in `order`: one per address that is not excluded, except the
   * ones whose `send_to` fails (`unreachable`), which are only logged.
   */
  function Deliveries(msg: Bytes, order: seq<SocketAddr>, excluded: Option<SocketAddr>,
                      unreachable: set<SocketAddr>): (d: seq<Datagram>)
    ensures |d| <= |order|
    ensures forall k :: 0 <= k < |d| ==> d[k].payload == msg
    decreases |order|
  {
    if order == [] then []
    else
      var n := |order| - 1;
      var last := order[n];
      Deliveries(msg, order[..n], excluded, unreachable) + Delivery(msg, last, excluded, unreachable)
  }

  /** What the loop sends to one address: the message, unless it is excluded or the send fails. */
  function Delivery(msg: Bytes, a: SocketAddr, excluded: Option<SocketAddr>, unreachable: set<SocketAddr>)
    : (d: seq<Datagram>)
    ensures d == [] || d == [Datagram(msg, a)]
  {
    if excluded != Some(a) && a !in unreachable then [Datagram(msg, a)] else []
  }

  /** Visiting one more address extends the datagrams by what that address gets. */
  lemma DeliveriesSnoc(msg: Bytes, order: seq<SocketAddr>, a: SocketAddr,
                       excluded: Option<SocketAddr>, unreachable: set<SocketAddr>)
    ensures Deliveries(msg, order + [a], excluded, unreachable)
         == Deliveries(msg, order, excluded, unreachable) + Delivery(msg, a, excluded, unreachable)
  {
    assert (order + [a])[..|order|] == order;
  }

  /** The addresses listed in s. */
  function Members(s: seq<SocketAddr>): (m: set<SocketAddr>)
    ensures forall a :: a in m <==> a in s
  {
    set a | a in s
  }

  predicate NoDuplicates(s: seq<SocketAddr>) {
    forall i, j :: 0 <= i < j < |s| ==> s[i] != s[j]
  }

  /** One turn of the broadcast loop: what has been sent grows by the next address's delivery. */
  lemma BroadcastStep(msg: Bytes, order: seq<SocketAddr>, i: nat, excluded: Option<SocketAddr>,
                      unreachable: set<SocketAddr>, before: seq<Datagram>, sent: seq<Datagram>)
    requires i < |order| && sent == before + Deliveries(msg, order[..i], excluded, unreachable)
    ensures sent + Delivery(msg, order[i], excluded, unreachable)
         == before + Deliveries(msg, order[..i + 1], excluded, unreachable)
  {
    DeliveriesSnoc(msg, order[..i], order[i], excluded, unreachable);
    assert order[..i + 1] == order[..i] + [order[i]];
  }

  /** The addresses of a list of datagrams. */
  function Targets(d: seq<Datagram>): (t: set<SocketAddr>)
    ensures forall a :: a in t <==> exists k :: 0 <= k < |d| && d[k].to == a
  {
    set k | 0 <= k < |d| :: d[k].to
  }

  lemma TargetsAppend(d: seq<Datagram>, e: seq<Datagram>)
    ensures Targets(d + e) == Targets(d) + Targets(e)
  {
    forall a | a in Targets(d) ensures a in Targets(d + e) {
      var k :| 0 <= k < |d| && d[k].to == a;
      assert (d + e)[k] == d[k];
    }
    forall a | a in Targets(e) ensures a in Targets(d + e) {
      var k :| 0 <= k < |e| && e[k].to == a;
      assert (d + e)[|d| + k] == e[k];
    }
  }

  /**
   * Whatever order the table is visited in, the broadcast reaches exactly
   * the recipients whose sends succeed, each once: a failed send does not
   * stop the loop.
   */
  lemma {:induction false} DeliveriesReach(msg: Bytes, order: seq<SocketAddr>,
                                           excluded: Option<SocketAddr>, unreachable: set<SocketAddr>)
    requires NoDuplicates(order)
    ensures Targets(Deliveries(msg, order, excluded, unreachable))
         == Recipients(Members(order), excluded) - unreachable
    ensures forall i, j :: 0 <= i < j < |Deliveries(msg, order, excluded, unreachable)| ==>
      Deliveries(msg, order, excluded, unreachable)[i].to != Deliveries(msg, order, excluded, unreachable)[j].to
    decreases |order|
  {
    if order != [] {
      var n := |order| - 1;
      var last := order[n];
      var prev := Deliveries(msg, order[..n], excluded, unreachable);
      assert NoDuplicates(order[..n]);
      DeliveriesReach(msg, order[..n], excluded, unreachable);
      assert Members(order) == Members(order[..n]) + {last};
      assert last !in Members(order[..n]);
      assert last !in Targets(prev);
      var d := Deliveries(msg, order, excluded, unreachable);
      var step := if excluded != Some(last) && last !in unreachable then [Datagram(msg, last)] else [];
      TargetsAppend(prev, step);
      if step != [] {
        assert step[0].to == last;
        assert Targets(step) == {last};
      }
    }
  }

  class ServerContext {
    var playerIdCounter: U32
    var players: map<SocketAddr, Player>
    var rooms: map<U32, Room>
    /** The datagrams handed to the server socket so far. */
    var sent: seq<Datagram>

    /** The state `accept_client` reads and writes. */
    function Registered(): Registry
      reads this
    {
      Registry(players, playerIdCounter)
    }

    /** `ServerContext::new`: counter 1, no rooms, no players. */
    constructor ()
      ensures Registered() == FreshRegistry()
      ensures rooms == map[] && sent == []
    {
      playerIdCounter := 1;
      players := map[];
      rooms := map[];
      sent := [];
    }

    /**
     * `accept_client(client)`. The table and counter change as `Accept`
     * says; the reply `Message::Ack(id).serialize()` goes to the client
     * unless the send fails (`sendFails`), in which case the error is
     * returned and the player stays registered.
     */
    method AcceptClient(client: SocketAddr, sendFails: bool) returns (id: U32, ok: bool)
      modifies this
      ensures Registered() == Accept(old(Registered()), client).registry
      ensures id == Accept(old(Registered()), client).id
      ensures rooms == old(rooms)
      ensures ok == !sendFails
      ensures sent == old(sent) + (if ok then [Datagram(Wire.Serialize(Wire.Ack(id)), client)] else [])
    {
      if client in players {
        id := players[client].id;
      } else {
        id := playerIdCounter;
        playerIdCounter := NextId(playerIdCounter);
        players := players[client := NewPlayer(id)];
      }
      var ack := Wire.Serialize(Wire.Ack(id));
      ok := !sendFails;
      if ok {
        sent := sent + [Datagram(ack, client)];
      }
    }

    /**
     * One message of `broadcast_handler`: the loop over the player table,
     * visited in `order`, the table's iteration order (`HashMap` fixes
     * none, so any duplicate-free listing of its keys). A send that fails
     * is logged and the loop goes on; `DeliveriesReach` shows that the
     * datagrams go to exactly the recipients.
     */
    method Broadcast(msg: Bytes, excluded: Option<SocketAddr>, unreachable: set<SocketAddr>,
                     order: seq<SocketAddr>)
      requires NoDuplicates(order) && Members(order) == players.Keys
      modifies this`sent
      ensures sent == old(sent) + Deliveries(msg, order, excluded, unreachable)
    {
      ghost var before := sent;
      for i := 0 to |order|
        invariant sent == before + Deliveries(msg, order[..i], excluded, unreachable)
      {
        var d := Delivery(msg, order[i], excluded, unreachable);
        BroadcastStep(msg, order, i, excluded, unreachable, before, sent);
        sent := sent + d;
      }
      assert order[..|order|] == order;
    }

    /**
     * `process_client_message`: an empty packet is dropped before anything
     * else; otherwise the packet is decoded, and since every arm of the
     * match is empty nothing changes. The decoding is returned (a `Panic`
     * there ends the spawned task and nothing else).
     */
    method ProcessClientMessage(client: SocketAddr, packet: Bytes) returns (decoded: Option<Wire.Decoded>)
      ensures packet == [] <==> decoded == None
      ensures decoded.Some? ==> decoded.value == Wire.Deserialize(packet)
      ensures decoded != Some(Wire.Err(Wire.EmptyPacket))
    {
      if |packet| == 0 {
        return None;
      }
      decoded := Some(Wire.Deserialize(packet));
    }
  }
}
