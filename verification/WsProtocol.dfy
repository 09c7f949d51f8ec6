/** One WebSocket connection from Connect to its close event, as a state machine over the callbacks of
    the event thread and the calls of the game thread (src/event_loop.cpp). */
module WsProtocol {
  import opened WsReassembly

  datatype Phase = CREATED | CONNECTING | CONNECTED | CLOSING | CLOSED | RECONNECTING

  datatype Event = WsConnected | WsMessage(message: Message) | WsError(code: int) | WsClosed(code: int) | WsPong

  /** One number for each kind of thing that refers to a connection. */
  datatype Tally = Tally(curl: nat, poll: nat, ping: nat, close: nat, reconnect: nat)

  const NoTally := Tally(0, 0, 0, 0, 0)

  /** What refers to the connection: its curl handle, whether the completion of that is awaited (it is
      in ws_curl_handles_), its poll handle and its three timers. `made` and `closed` are history: how
      many of each kind the connection has made and given back. */
  datatype Gear = Gear(curl: bool, connecting: bool, poll: bool, ping: bool, close: bool, reconnect: bool, made: Tally, closed: Tally)

  const NoGear := Gear(false, false, false, false, false, false, NoTally, NoTally)

  datatype Conn = Conn(
    connects: nat,              // CONNECT operations processed
    registered: bool,           // in ws_connections_
    phase: Phase,
    handleClosed: bool,
    gear: Gear,
    closeSent: bool,
    closePushed: bool,          // close_event_pushed_
    pingInterval: nat,
    maxReconnects: int,         // 0: never, negative: without end
    reconnectCount: nat,
    buffer: Buffer,
    events: seq<Event>)         // everything queued for the game thread

  function Created(): Conn {
    Conn(0, false, CREATED, false, NoGear, false, false, 0, 0, 0, Empty, [])
  }

  const CURLE_OK := 0
  const CURLE_AGAIN := 81

  /** What one read of the socket gives. */
  datatype Frame = Gone | Failed(code: int) | CloseFrame(code: int) | Ping | Pong(wanted: bool) | DataFrame(chunk: Chunk)

  datatype Action =
    | MarkClosed
    | SetPing(interval: nat)
    | SetReconnect(limit: int)
    | OpConnect(initOk: bool)
    | OpSend(result: int)
    | OpClose
    | OpSetPing(interval: nat)
    | CurlDone(result: int)
    | PollStart(status: int)
    | ReadFrame(frame: Frame)
    | CloseTimeout
    | PingTimer
    | ReconnectTimer(initOk: bool)

  // ---- Making and giving back handles and timers ----

  function StartCurl(g: Gear): Gear {
    g.(curl := true, connecting := true, made := g.made.(curl := g.made.curl + 1))
  }

  function DropCurl(g: Gear): Gear {
    if g.curl then g.(curl := false, connecting := false, closed := g.closed.(curl := g.closed.curl + 1)) else g
  }

  function StartPoll(g: Gear): Gear {
    g.(poll := true, made := g.made.(poll := g.made.poll + 1))
  }

  function DropPoll(g: Gear): Gear {
    if g.poll then g.(poll := false, closed := g.closed.(poll := g.closed.poll + 1)) else g
  }

  function StartPing(g: Gear): Gear {
    g.(ping := true, made := g.made.(ping := g.made.ping + 1))
  }

  function DropPing(g: Gear): Gear {
    if g.ping then g.(ping := false, closed := g.closed.(ping := g.closed.ping + 1)) else g
  }

  function StartClose(g: Gear): Gear {
    g.(close := true, made := g.made.(close := g.made.close + 1))
  }

  function DropClose(g: Gear): Gear {
    if g.close then g.(close := false, closed := g.closed.(close := g.closed.close + 1)) else g
  }

  function StartReconnect(g: Gear): Gear {
    g.(reconnect := true, made := g.made.(reconnect := g.made.reconnect + 1))
  }

  function DropReconnect(g: Gear): Gear {
    if g.reconnect then g.(reconnect := false, closed := g.closed.(reconnect := g.closed.reconnect + 1)) else g
  }

  function StopTimers(g: Gear): Gear {
    DropReconnect(DropPing(DropClose(g)))
  }

  function DropAll(g: Gear): Gear {
    DropCurl(DropPoll(StopTimers(g)))
  }

  // ---- Parts the callbacks share ----

  function Push(c: Conn, e: Event): Conn {
    c.(events := c.events + [e])
  }

  function PushClosedOnce(c: Conn, code: int): Conn {
    if c.closePushed then c else Push(c.(closePushed := true), WsClosed(code))
  }

  function Cleanup(c: Conn, keep: bool): Conn {
    if keep then c.(gear := DropAll(c.gear), buffer := Reset(c.buffer), closeSent := false, phase := RECONNECTING)
    else c.(gear := DropAll(c.gear), phase := CLOSED, registered := false)
  }

  predicate ShouldReconnect(c: Conn) {
    && !c.handleClosed && c.phase != CLOSING && c.maxReconnects != 0
    && !(c.maxReconnects > 0 && c.reconnectCount >= c.maxReconnects)
  }

  function StartReconnecting(c: Conn): Conn {
    var c1 := Cleanup(c, true);
    c1.(reconnectCount := c1.reconnectCount + 1, gear := StartReconnect(c1.gear))
  }

  function DisconnectOrReconnect(c: Conn, code: int): Conn {
    if ShouldReconnect(c) then StartReconnecting(c) else PushClosedOnce(Cleanup(c, false), code)
  }

  function InitCurl(c: Conn): Conn {
    c.(gear := StartCurl(c.gear), phase := CONNECTING)
  }

  // ---- The steps ----

  /** When a callback can come: an operation at any time, the others while their handle or timer is
      there. A connection is connected once. */
  predicate Enabled(c: Conn, a: Action) {
    match a
    case OpConnect(_) => c.connects == 0
    case CurlDone(_) => c.gear.connecting
    case PollStart(_) => c.gear.poll
    case ReadFrame(_) => c.gear.poll
    case CloseTimeout => c.gear.close
    case PingTimer => c.gear.ping
    case ReconnectTimer(_) => c.gear.reconnect
    case _ => true
  }

  function Next(c: Conn, a: Action): Conn {
    match a
    case MarkClosed => c.(handleClosed := true)
    case SetPing(interval) => c.(pingInterval := interval)
    case SetReconnect(limit) => c.(maxReconnects := limit)
    case OpConnect(ok) => ConnectStep(c, ok)
    case OpSend(result) => SendStep(c, result)
    case OpClose => CloseStep(c)
    case OpSetPing(interval) => SetPingStep(c, interval)
    case CurlDone(result) => CurlDoneStep(c, result)
    case PollStart(status) => PollStartStep(c, status)
    case ReadFrame(f) => ReadFrameStep(c, f)
    case CloseTimeout => CloseTimeoutStep(c)
    case PingTimer => c
    case ReconnectTimer(ok) => ReconnectStep(c, ok)
  }

  function ConnectStep(c: Conn, initOk: bool): Conn {
    var c1 := c.(connects := c.connects + 1, registered := true);
    if c1.handleClosed then c1
    else if initOk then InitCurl(c1)
    else Push(c1, WsError(-1)).(registered := false)
  }

  function SendStep(c: Conn, result: int): Conn {
    if !c.registered || c.handleClosed || !c.gear.curl || c.phase != CONNECTED then c
    else if result == CURLE_OK || result == CURLE_AGAIN then c
    else Push(c, WsError(result))
  }

  function CloseStep(c: Conn): Conn {
    if !c.registered || c.phase == CLOSING || c.phase == CLOSED then c
    else if c.phase == RECONNECTING then PushClosedOnce(c.(gear := StopTimers(c.gear), phase := CLOSED, registered := false), 0)
    else if c.gear.curl && c.gear.poll && c.phase == CONNECTED && !c.closeSent then
      c.(phase := CLOSING, closeSent := true, gear := StartClose(c.gear))
    else PushClosedOnce(Cleanup(c, false), 0)
  }

  function StartPingIf(g: Gear, interval: nat): Gear {
    if interval > 0 then StartPing(g) else g
  }

  function ConnectedStep(c: Conn): Conn {
    Push(c.(gear := StartPingIf(StartPoll(c.gear), c.pingInterval), phase := CONNECTED, reconnectCount := 0), WsConnected)
  }

  function CurlDoneStep(c: Conn, result: int): Conn {
    var c1 := c.(gear := c.gear.(connecting := false));
    if c1.handleClosed then PushClosedOnce(c1.(gear := DropCurl(c1.gear), phase := CLOSED, registered := false), 0)
    else if result == CURLE_OK then ConnectedStep(c1)
    else DisconnectOrReconnect(Push(c1, WsError(result)).(gear := DropCurl(c1.gear)), 0)
  }

  function DataStep(c: Conn, chunk: Chunk): Conn {
    var (b, o) := Take(c.buffer, chunk);
    var c1 := c.(buffer := b);
    match o
    case Pending => c1
    case Delivered(m) => Push(c1, WsMessage(m))
    case TooBig => PushClosedOnce(Cleanup(Push(c1, WsError(1009)).(closeSent := true), false), 0)
  }

  function ReadFrameStep(c: Conn, f: Frame): Conn {
    match f
    case Gone => DisconnectOrReconnect(c, 0)
    case Failed(code) => DisconnectOrReconnect(Push(c, WsError(code)), 0)
    case CloseFrame(code) => DisconnectOrReconnect(c.(closeSent := true), code)
    case Ping => c
    case Pong(wanted) => if wanted then Push(c, WsPong) else c
    case DataFrame(chunk) => if c.handleClosed then c else DataStep(c, chunk)
  }

  function SetPingStep(c: Conn, interval: nat): Conn {
    if !c.registered then c
    else if c.phase != CONNECTED then c.(pingInterval := interval)
    else c.(pingInterval := interval, gear := StartPingIf(DropPing(c.gear), interval))
  }

  function PollStartStep(c: Conn, status: int): Conn {
    if c.handleClosed then PushClosedOnce(Cleanup(c, false), 0)
    else if status < 0 then DisconnectOrReconnect(Push(c, WsError(status)), 0)
    else c
  }

  function CloseTimeoutStep(c: Conn): Conn {
    PushClosedOnce(Cleanup(c.(gear := DropClose(c.gear)), false), 0)
  }

  function ReconnectStep(c: Conn, initOk: bool): Conn {
    var c1 := c.(gear := DropReconnect(c.gear));
    if c1.handleClosed then PushClosedOnce(c1.(phase := CLOSED, registered := false), 0)
    else RetryStep(c1, initOk)
  }

  function RetryStep(c: Conn, initOk: bool): Conn {
    if initOk then InitCurl(c) else PushClosedOnce(Push(c, WsError(-1)).(phase := CLOSED, registered := false), 0)
  }

  // ---- The invariant ----

  /** Close events queued so far. */
  function Closes(events: seq<Event>): nat {
    if events == [] then 0
    else Closes(events[..|events| - 1]) + if events[|events| - 1].WsClosed? then 1 else 0
  }

  /** Messages queued so far. */
  function MessagesIn(events: seq<Event>): seq<Message> {
    if events == [] then []
    else MessagesIn(events[..|events| - 1]) + if events[|events| - 1].WsMessage? then [events[|events| - 1].message] else []
  }

  predicate Unused(g: Gear) {
    !g.curl && !g.connecting && !g.poll && !g.ping && !g.close && !g.reconnect
  }

  function Bit(b: bool): nat {
    if b then 1 else 0
  }

  /** Of each kind there is one more made than given back if there is one in use, and none otherwise. */
  predicate Balanced(g: Gear) {
    && g.made.curl == g.closed.curl + Bit(g.curl) && g.made.poll == g.closed.poll + Bit(g.poll)
    && g.made.ping == g.closed.ping + Bit(g.ping) && g.made.close == g.closed.close + Bit(g.close)
    && g.made.reconnect == g.closed.reconnect + Bit(g.reconnect)
  }

  /** No handle, no timer and no table refers to the connection. */
  predicate Detached(c: Conn) {
    !c.registered && Unused(c.gear)
  }

  /** What the phase says about the handles and timers. */
  predicate Fitted(phase: Phase, g: Gear) {
    && (g.connecting <==> phase == CONNECTING)
    && (g.poll <==> phase == CONNECTED || phase == CLOSING)
    && (g.curl <==> g.connecting || g.poll)
    && (g.reconnect <==> phase == RECONNECTING)
    && (g.close <==> phase == CLOSING)
    && (g.ping ==> g.poll)
  }

  predicate Inv(c: Conn) {
    && Closes(c.events) == Bit(c.closePushed)
    && Balanced(c.gear) && Fitted(c.phase, c.gear)
    && (c.connects == 0 ==> Detached(c) && c.phase == CREATED)
    && (c.closePushed <==> c.phase == CLOSED)
    && (c.phase == CLOSED ==> Detached(c))
    && (!c.registered ==> Detached(c))
  }
}
