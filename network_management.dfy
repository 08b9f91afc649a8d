/**
 * The client's connection bookkeeping (scripts/NetworkManagement.cs). The
 * `ConnectionStatusChanged` signals it emits and the requests it forwards
 * to its `NetworkClient` are kept as lists.
 */
module NetManagement {
  import opened Octets

  /** What `NetworkManagement` asks of its network client. */
  datatype Request = Connect(username: string) | Disconnect

  /** The arguments of one `ConnectionStatusChanged` signal. */
  datatype Status = Status(connected: bool, playerId: I32)

  class NetworkManagement {
    var username: string
    var connected: bool
    var playerId: I32
    var signals: seq<Status>
    var forwarded: seq<Request>

    /** The last signal emitted, if any, describes the current connection. */
    predicate SignalAgrees()
      reads this
    {
      signals != [] ==> signals[|signals| - 1] == Status(connected, playerId)
    }

    /** The initialisers: no name, not connected, id -1; nothing emitted or sent. */
    constructor ()
      ensures username == "" && !connected && playerId == -1
      ensures signals == [] && forwarded == []
    {
      username := "";
      connected := false;
      playerId := -1;
      signals := [];
      forwarded := [];
    }

    /** `UpdateConnectionStatus(c, p)`: stores both and emits exactly one signal carrying them. */
    method UpdateConnectionStatus(c: bool, p: I32)
      modifies this`connected, this`playerId, this`signals
      ensures connected == c && playerId == p
      ensures signals == old(signals) + [Status(c, p)]
      ensures SignalAgrees()
    {
      connected := c;
      playerId := p;
      signals := signals + [Status(connected, playerId)];
    }

    /** `ConnectToServer(u)`: records the name and forwards it; connection state is untouched. */
    method ConnectToServer(u: string)
      modifies this`username, this`forwarded
      ensures username == u && forwarded == old(forwarded) + [Connect(u)]
      ensures SignalAgrees() == old(SignalAgrees())
    {
      username := u;
      forwarded := forwarded + [Connect(u)];
    }

    /**
     * `DisconnectToServer()`: clears `connected` and forwards the request,
     * but emits no signal, so a listener that last heard "connected" is
     * not told otherwise.
     */
    method DisconnectToServer()
      modifies this`connected, this`forwarded
      ensures !connected && forwarded == old(forwarded) + [Disconnect]
      ensures signals == old(signals)
      ensures old(signals) != [] && old(signals[|signals| - 1]).connected ==> !SignalAgrees()
    {
      connected := false;
      forwarded := forwarded + [Disconnect];
    }
  }
}
