/**
 * The chat relay of the example: a registry of open WebSockets keyed by their
 * connection key, and the handlers restbed calls for the upgrade, for closing,
 * errors and incoming messages, and for the periodic keepalive sweep.
 *
 * restbed's sockets are stood in for by WebSocket objects that record what is
 * done to them (frames handed to send, calls to close); timers are recorded
 * as the delays they are armed with.
 */
module Chat {
  import Handshake

  /** The frame kinds of restbed's WebSocketMessage::OpCode. */
  datatype Opcode =
    | ContinuationFrame
    | TextFrame
    | BinaryFrame
    | ConnectionCloseFrame
    | PingFrame
    | PongFrame

  datatype Message = Message(opcode: Opcode, data: string)

  /** What WebSocket::send(opcode) sends: a control frame with no payload. */
  function ControlFrame(opcode: Opcode): Message {
    Message(opcode, [])
  }

  /** The text sent to each socket once its upgrade completes. */
  const WELCOME: string := "Welcome to Corvusoft Chat!"

  /** Delay with which the keepalive sweep re-arms itself: 5000 milliseconds. */
  const PING_INTERVAL_MS: nat := 5000

  /** Delay of the first sweep, armed at start-up: 5000 seconds, in milliseconds. */
  const FIRST_PING_DELAY_MS: nat := 5000 * 1000

  /** The observable state of a socket: what the model records about it. */
  datatype SocketState = SocketState(open: bool, sent: seq<Message>, closes: nat, handlersAttached: bool)

  /** The part of a restbed WebSocket the example uses. */
  class WebSocket {
    /** WebSocket::get_key: the connection's key, fixed for its lifetime. */
    const key: string
    /** WebSocket::is_open. */
    var open: bool
    /** Every frame handed to WebSocket::send, oldest first. */
    var sent: seq<Message>
    /** Number of calls to WebSocket::close. */
    var closes: nat
    /** Whether the close, error and message handlers of the example are attached. */
    var handlersAttached: bool

    function State(): SocketState
      reads this
    {
      SocketState(open, sent, closes, handlersAttached)
    }

    constructor(key: string, open: bool)
      ensures this.key == key && State() == SocketState(open, [], 0, false)
    {
      this.key := key;
      this.open := open;
      sent := [];
      closes := 0;
      handlersAttached := false;
    }

    method Send(m: Message)
      modifies this
      ensures State() == Delivered(old(State()), m)
    {
      sent := sent + [m];
    }

    method Close()
      modifies this
      ensures State() == old(State()).(open := false, closes := old(closes) + 1)
    {
      open := false;
      closes := closes + 1;
    }

    method AttachHandlers()
      modifies this
      ensures State() == old(State()).(handlersAttached := true)
    {
      handlersAttached := true;
    }
  }

  /** A socket's state after one more frame is handed to send. */
  function Delivered(st: SocketState, m: Message): SocketState {
    st.(sent := st.sent + [m])
  }

  /**
   * A registered socket's state after the keepalive sweep: an open socket is
   * sent one ping, any other is closed once and sent nothing.
   */
  function Swept(st: SocketState): SocketState {
    if st.open then Delivered(st, ControlFrame(PingFrame))
    else st.(open := false, closes := st.closes + 1)
  }

  /** How many times the frame m occurs in a log of sent frames. */
  function Count(log: seq<Message>, m: Message): (n: nat)
    ensures n <= |log|
    ensures m !in log ==> n == 0
  {
    if |log| == 0 then 0
    else (if log[0] == m then 1 else 0) + Count(log[1..], m)
  }

  lemma {:induction false} CountAppend(log: seq<Message>, x: Message, m: Message)
    ensures Count(log + [x], m) == Count(log, m) + (if x == m then 1 else 0)
    decreases |log|
  {
    if |log| == 0 {
      assert log + [x] == [x];
    } else {
      assert (log + [x])[1..] == log[1..] + [x];
      CountAppend(log[1..], x, m);
    }
  }

  /** Handing m to send adds exactly one m to the socket's log and nothing else. */
  lemma DeliveredOnce(st: SocketState, m: Message)
    ensures Count(Delivered(st, m).sent, m) == Count(st.sent, m) + 1
    ensures forall other | other != m :: Count(Delivered(st, m).sent, other) == Count(st.sent, other)
    ensures Delivered(st, m).open == st.open && Delivered(st, m).closes == st.closes
  {
    CountAppend(st.sent, m, m);
    forall other | other != m
      ensures Count(Delivered(st, m).sent, other) == Count(st.sent, other)
    {
      CountAppend(st.sent, m, other);
    }
  }

  /**
   * The sweep, counted: an open socket gets exactly one more ping, stays open
   * and is not closed; any other gets no frame at all and one more close.
   */
  lemma SweptCounts(st: SocketState)
    ensures Count(Swept(st).sent, ControlFrame(PingFrame)) == Count(st.sent, ControlFrame(PingFrame)) + (if st.open then 1 else 0)
    ensures forall m | m != ControlFrame(PingFrame) :: Count(Swept(st).sent, m) == Count(st.sent, m)
    ensures st.open ==> Swept(st).open && Swept(st).closes == st.closes
    ensures !st.open ==> !Swept(st).open && Swept(st).sent == st.sent && Swept(st).closes == st.closes + 1
  {
    if st.open {
      DeliveredOnce(st, ControlFrame(PingFrame));
    }
  }

  /**
   * Where the keepalive sweep stands, for the registry: state0 holds each
   * socket's state when the sweep started, the keys in pending are still to
   * be visited, and the registry holds those and the keys whose socket was open.
   */
  ghost predicate RegistrySwept(registry: map<string, WebSocket>, before: map<string, WebSocket>,
                                state0: map<string, SocketState>, pending: set<string>)
  {
    before.Keys == state0.Keys && pending <= before.Keys &&
    (forall k | k in before :: before[k].key == k) &&
    (forall k | k in registry :: k in before && registry[k] == before[k]) &&
    (forall k | k in before :: k in registry <==> k in pending || state0[k].open)
  }

  /** Visiting an open socket's key keeps it registered. */
  lemma KeepSwept(registry: map<string, WebSocket>, before: map<string, WebSocket>,
                  state0: map<string, SocketState>, pending: set<string>, k: string)
    requires RegistrySwept(registry, before, state0, pending) && k in pending && state0[k].open
    ensures RegistrySwept(registry, before, state0, pending - {k})
  {
  }

  /** Visiting a socket that was not open erases its key. */
  lemma EraseSwept(registry: map<string, WebSocket>, before: map<string, WebSocket>,
                   state0: map<string, SocketState>, pending: set<string>, k: string)
    requires RegistrySwept(registry, before, state0, pending) && k in pending && !state0[k].open
    ensures RegistrySwept(registry - {k}, before, state0, pending - {k})
  {
  }

  /** The example's global state: the registry `sockets` and the service's timers. */
  class ChatServer {
    /** The registry: open connections by key. */
    var sockets: map<string, WebSocket>
    /** The delays, in milliseconds, of every timer armed for the sweep, oldest first. */
    var schedule: seq<nat>

    /** Every entry is filed under its own socket's key. */
    ghost predicate Valid()
      reads this
    {
      forall k :: k in sockets ==> sockets[k].key == k
    }

    /** Start-up: an empty registry and the first sweep armed 5000 seconds ahead. */
    constructor()
      ensures Valid()
      ensures sockets == map[] && schedule == [FIRST_PING_DELAY_MS]
    {
      sockets := map[];
      schedule := [FIRST_PING_DELAY_MS];
    }

    /**
     * close_handler: erases the socket's key.  Every other entry stays, and an
     * absent key leaves the registry as it was.
     */
    method CloseHandler(socket: WebSocket)
      requires Valid()
      modifies this
      ensures Valid()
      ensures sockets == old(sockets) - {socket.key}
      ensures schedule == old(schedule)
    {
      sockets := sockets - {socket.key};
    }

    /** error_handler: only logs; nothing in the model changes. */
    method ErrorHandler(socket: WebSocket, error: string)
      requires Valid()
      ensures Valid()
      ensures sockets == old(sockets) && schedule == old(schedule)
      ensures unchanged(socket)
    {
    }

    /**
     * The continuation of Session::upgrade in get_method_handler.  An open
     * socket gets the example's handlers and the welcome text; once that send
     * completes (delivered) its key is inserted, and map::insert leaves an
     * existing entry for the key in place.  A socket that is not open is left
     * alone and never registered.
     */
    method UpgradeHandler(socket: WebSocket, delivered: bool)
      requires Valid()
      modifies this, socket
      ensures Valid()
      ensures schedule == old(schedule)
      ensures socket.State() ==
                if old(socket.open)
                then Delivered(old(socket.State()).(handlersAttached := true), Message(TextFrame, WELCOME))
                else old(socket.State())
      ensures sockets ==
                if old(socket.open) && delivered && socket.key !in old(sockets)
                then old(sockets)[socket.key := socket]
                else old(sockets)
    {
      if socket.open {
        socket.AttachHandlers();
        socket.Send(Message(TextFrame, WELCOME));
        if delivered && socket.key !in sockets {
          sockets := sockets[socket.key := socket];
        }
      }
    }

    /**
     * get_method_handler: answers the upgrade request with the handshake
     * headers, whatever the request holds, then runs the upgrade continuation.
     */
    method GetMethodHandler(request: Handshake.Request, sha1: string -> Handshake.Digest,
                            socket: WebSocket, delivered: bool)
      returns (headers: seq<Handshake.Header>)
      requires Valid()
      modifies this, socket
      ensures Valid()
      ensures headers == Handshake.BuildResponseHeaders(request, sha1)
      ensures schedule == old(schedule)
      ensures socket.State() ==
                if old(socket.open)
                then Delivered(old(socket.State()).(handlersAttached := true), Message(TextFrame, WELCOME))
                else old(socket.State())
      ensures sockets ==
                if old(socket.open) && delivered && socket.key !in old(sockets)
                then old(sockets)[socket.key := socket]
                else old(sockets)
    {
      headers := Handshake.BuildResponseHeaders(request, sha1);
      UpgradeHandler(socket, delivered);
    }

    /** Where the sweep stands, for the sockets: those visited have been swept, the others are as they were. */
    ghost predicate StatesSwept(before: map<string, WebSocket>, state0: map<string, SocketState>,
                                pending: set<string>)
      requires before.Keys == state0.Keys
      reads before.Values
    {
      forall k | k in before :: before[k].State() == if k in pending then state0[k] else Swept(state0[k])
    }

    ghost predicate SweepInv(before: map<string, WebSocket>, state0: map<string, SocketState>, pending: set<string>)
      reads this, before.Values
    {
      RegistrySwept(sockets, before, state0, pending) && StatesSwept(before, state0, pending)
    }

    /** One step of ping_handler: the entry under key k is pinged, or closed and erased. */
    method SweepStep(k: string, ghost before: map<string, WebSocket>, ghost state0: map<string, SocketState>,
                     ghost pending: set<string>)
      requires k in pending && SweepInv(before, state0, pending)
      modifies this, before[k]
      ensures SweepInv(before, state0, pending - {k})
      ensures schedule == old(schedule)
    {
      if sockets[k].open {
        PingEntry(k, before, state0, pending);
      } else {
        DropEntry(k, before, state0, pending);
      }
    }

    /** The open socket under key k is sent one ping and stays registered. */
    method PingEntry(k: string, ghost before: map<string, WebSocket>, ghost state0: map<string, SocketState>,
                     ghost pending: set<string>)
      requires k in pending && SweepInv(before, state0, pending) && before[k].open
      modifies before[k]
      ensures SweepInv(before, state0, pending - {k})
    {
      sockets[k].Send(ControlFrame(PingFrame));
      KeepSwept(sockets, before, state0, pending, k);
    }

    /** The socket under key k, not open, is closed and its key erased. */
    method DropEntry(k: string, ghost before: map<string, WebSocket>, ghost state0: map<string, SocketState>,
                     ghost pending: set<string>)
      requires k in pending && SweepInv(before, state0, pending) && !before[k].open
      modifies this, before[k]
      ensures SweepInv(before, state0, pending - {k})
      ensures schedule == old(schedule)
    {
      sockets[k].Close();
      assert StatesSwept(before, state0, pending - {k});
      EraseSwept(sockets, before, state0, pending, k);
      sockets := sockets - {k};
    }

    /**
     * The loop of ping_handler: every entry of the registry as it was on entry
     * is visited once; an open socket is pinged and kept, any other is closed
     * and erased.
     */
    method Sweep()
      requires Valid()
      modifies this, sockets.Values
      ensures forall k | k in sockets :: k in old(sockets) && sockets[k] == old(sockets)[k]
      ensures forall k | k in old(sockets) :: k in sockets <==> old(sockets[k].open)
      ensures forall k | k in old(sockets) :: old(sockets)[k].State() == Swept(old(sockets[k].State()))
      ensures schedule == old(schedule)
    {
      ghost var before := sockets;
      ghost var state0 := map k | k in sockets :: sockets[k].State();
      var pending := sockets.Keys;
      while pending != {}
        invariant SweepInv(before, state0, pending)
        invariant schedule == old(schedule)
        decreases pending
      {
        var k :| k in pending;
        SweepStep(k, before, state0, pending);
        pending := pending - {k};
      }
    }

    /**
     * ping_handler: the sweep, after which the registry holds exactly the
     * entries whose socket was open; then the handler re-arms itself with
     * PING_INTERVAL_MS, also when the registry is empty.
     */
    method PingHandler()
      requires Valid()
      modifies this, sockets.Values
      ensures Valid()
      ensures sockets == map k | k in old(sockets) && old(sockets[k].open) :: old(sockets)[k]
      ensures forall k | k in sockets :: sockets[k].open
      ensures forall k | k in old(sockets) :: old(sockets)[k].State() == Swept(old(sockets[k].State()))
      ensures schedule == old(schedule) + [PING_INTERVAL_MS]
    {
      Sweep();
      schedule := schedule + [PING_INTERVAL_MS];
    }

    /**
     * The relay branch of message_handler: the message, unchanged, to every
     * registered key other than the source's, once each; nothing to the source.
     */
    method Relay(source: WebSocket, message: Message)
      requires Valid()
      modifies sockets.Values
      ensures forall k | k in sockets ::
                sockets[k].State() ==
                  if k == source.key then old(sockets[k].State())
                  else Delivered(old(sockets[k].State()), message)
      ensures source.State() == old(source.State())
    {
      var pending := sockets.Keys;
      while pending != {}
        invariant pending <= sockets.Keys
        invariant forall k | k in sockets && (k in pending || k == source.key) :: sockets[k].State() == old(sockets[k].State())
        invariant forall k | k in sockets && k !in pending && k != source.key ::
                    sockets[k].State() == Delivered(old(sockets[k].State()), message)
        invariant source.State() == old(source.State())
        decreases pending
      {
        var k :| k in pending;
        if k != source.key {
          sockets[k].Send(message);
        }
        pending := pending - {k};
      }
    }

    /**
     * message_handler: a ping is answered with one pong to the source, a pong
     * is ignored, a close frame runs close_handler, and anything else is relayed.
     */
    method MessageHandler(source: WebSocket, message: Message)
      requires Valid()
      modifies this, sockets.Values, source
      ensures Valid()
      ensures schedule == old(schedule)
      ensures sockets ==
                if message.opcode == ConnectionCloseFrame then old(sockets) - {source.key} else old(sockets)
      ensures source.State() ==
                if message.opcode == PingFrame then Delivered(old(source.State()), ControlFrame(PongFrame))
                else old(source.State())
      ensures forall k | k in old(sockets) && old(sockets)[k] != source ::
                old(sockets)[k].State() ==
                  if message.opcode in {PingFrame, PongFrame, ConnectionCloseFrame} || k == source.key
                  then old(sockets[k].State())
                  else Delivered(old(sockets[k].State()), message)
    {
      if message.opcode == PingFrame {
        source.Send(ControlFrame(PongFrame));
      } else if message.opcode == PongFrame {
      } else if message.opcode == ConnectionCloseFrame {
        CloseHandler(source);
      } else {
        Relay(source, message);
      }
    }
  }

  /** Two clients join, and alice's text reaches bob only. */
  method RelayScenario() {
    var server := new ChatServer();
    var alice := new WebSocket("alice", true);
    var bob := new WebSocket("bob", true);
    server.UpgradeHandler(alice, true);
    server.UpgradeHandler(bob, true);
    assert server.sockets == map["alice" := alice, "bob" := bob];
    assert bob.sent == [Message(TextFrame, WELCOME)];

    var hi := Message(TextFrame, "hi");
    label BeforeText:
    server.MessageHandler(alice, hi);
    assert old@BeforeText(server.sockets)["bob"] == bob && bob != alice && "bob" != alice.key;
    assert alice.sent == [Message(TextFrame, WELCOME)];
    assert bob.sent == [Message(TextFrame, WELCOME), hi];
  }

  /** Of two registered clients, bob's connection has dropped: the next sweep pings alice, closes bob and erases its key. */
  method SweepScenario(server: ChatServer, alice: WebSocket, bob: WebSocket)
    requires alice.key == "alice" && bob.key == "bob"
    requires server.sockets == map["alice" := alice, "bob" := bob]
    requires alice.State() == SocketState(true, [], 0, true)
    requires bob.State() == SocketState(false, [], 0, true)
    modifies server, alice, bob
  {
    label BeforeSweep:
    server.PingHandler();
    assert old@BeforeSweep(server.sockets)["alice"] == alice && old@BeforeSweep(server.sockets)["bob"] == bob;
    assert server.sockets == map["alice" := alice];
    assert alice.sent == [ControlFrame(PingFrame)];
    assert bob.sent == [] && bob.closes == 1;
  }

  /** close_handler run twice for the same socket: the second run changes nothing. */
  method CloseTwiceScenario(server: ChatServer, socket: WebSocket)
    requires server.Valid()
    modifies server
  {
    server.CloseHandler(socket);
    label Once:
    server.CloseHandler(socket);
    assert server.sockets == old@Once(server.sockets);
    assert socket.key !in server.sockets;
  }
}
