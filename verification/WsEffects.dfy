/** What each step of a WebSocket connection does to its ping timer, its reconnect counter, its buffer and
    the messages it has queued. */
module WsEffects {
  import opened WsReassembly
  import opened WsProtocol
  import opened WsInvariant

  /** The step begins to wait for a reconnect. */
  predicate StartsOver(c: Conn, d: Conn) {
    c.phase != RECONNECTING && d.phase == RECONNECTING
  }

  /** The step makes the connection stand. */
  predicate Stands(c: Conn, d: Conn) {
    c.phase != CONNECTED && d.phase == CONNECTED
  }

  /** The step takes a chunk into the message under way. */
  predicate Takes(c: Conn, a: Action) {
    a.ReadFrame? && a.frame.DataFrame? && !c.handleClosed
  }

  /** The message a step queues, if any. */
  function Queued(c: Conn, a: Action): seq<Message> {
    if Takes(c, a) && Take(c.buffer, a.frame.chunk).1.Delivered? then [Take(c.buffer, a.frame.chunk).1.message] else []
  }

  function BufferAfter(c: Conn, a: Action, d: Conn): Buffer {
    if Takes(c, a) then Take(c.buffer, a.frame.chunk).0 else if StartsOver(c, d) then Reset(c.buffer) else c.buffer
  }

  /** The connection with the limit that is in force after the step. */
  function WithLimit(c: Conn, a: Action): Conn {
    if a.SetReconnect? then c.(maxReconnects := a.limit) else c
  }

  predicate Effect(c: Conn, d: Conn, queued: seq<Message>, buffer: Buffer) {
    && d.maxReconnects == c.maxReconnects && d.buffer == buffer
    && MessagesIn(d.events) == MessagesIn(c.events) + queued
    && (c.phase == CLOSED ==> d.phase == CLOSED)
    && (StartsOver(c, d) ==> ShouldReconnect(c))
    && d.reconnectCount == if StartsOver(c, d) then c.reconnectCount + 1
                           else if Stands(c, d) then 0
                           else c.reconnectCount
  }

  lemma ClosedEffect(c: Conn, code: int)
    requires c.phase != CLOSED
    ensures var d := PushClosedOnce(c.(phase := CLOSED, registered := false), code); Effect(c, d, [], c.buffer) && d.phase == CLOSED
  {
    EventsOf(c.events, WsClosed(code));
  }

  lemma CleanupEffect(c: Conn, code: int)
    requires c.phase != CLOSED
    ensures var d := PushClosedOnce(Cleanup(c, false), code); Effect(c, d, [], c.buffer) && d.phase == CLOSED
  {
    hide DropAll, MessagesIn;
    EventsOf(c.events, WsClosed(code));
  }

  lemma DisconnectEffect(c: Conn, code: int)
    requires c.phase != CLOSED && c.phase != RECONNECTING
    ensures var d := DisconnectOrReconnect(c, code);
            Effect(c, d, [], if StartsOver(c, d) then Reset(c.buffer) else c.buffer) && (d.phase == CLOSED || d.phase == RECONNECTING)
  {
    hide DropAll, PushClosedOnce, MessagesIn;
    CleanupEffect(c, code);
  }

  lemma DataEffect(c: Conn, chunk: Chunk)
    requires Inv(c) && c.gear.poll
    ensures var d, a := DataStep(c, chunk), ReadFrame(DataFrame(chunk));
            Effect(c, d, if Take(c.buffer, chunk).1.Delivered? then [Take(c.buffer, chunk).1.message] else [], Take(c.buffer, chunk).0)
    ensures DataStep(c, chunk).phase == if Take(c.buffer, chunk).1.TooBig? then CLOSED else c.phase
  {
    hide PushClosedOnce, Cleanup, MessagesIn, Take, Closes, Balanced;
    var (b, o) := Take(c.buffer, chunk);
    match o
    case Pending =>
    case Delivered(m) => EventsOf(c.events, WsMessage(m));
    case TooBig =>
      EventsOf(c.events, WsError(1009));
      CleanupEffect(Push(c.(buffer := b), WsError(1009)).(closeSent := true), 0);
  }

  lemma ReadFrameEffect(c: Conn, f: Frame)
    requires Inv(c) && c.gear.poll
    ensures var d, a := ReadFrameStep(c, f), ReadFrame(f); Effect(c, d, Queued(c, a), BufferAfter(c, a, d))
  {
    hide DisconnectOrReconnect, DataStep, MessagesIn, Take, Closes, Balanced;
    match f
    case Gone => DisconnectEffect(c, 0);
    case Failed(code) =>
      EventsOf(c.events, WsError(code));
      DisconnectEffect(Push(c, WsError(code)), 0);
    case CloseFrame(code) => DisconnectEffect(c.(closeSent := true), code);
    case Ping =>
    case Pong(_) => EventsOf(c.events, WsPong);
    case DataFrame(chunk) => DataEffect(c, chunk);
  }

  lemma CurlDoneEffect(c: Conn, result: int)
    requires Inv(c) && c.gear.connecting
    ensures var d, a := CurlDoneStep(c, result), CurlDone(result); Effect(c, d, [], BufferAfter(c, a, d))
  {
    hide DisconnectOrReconnect, PushClosedOnce, MessagesIn, Closes, Balanced;
    var c1 := c.(gear := DropCurl(c.gear.(connecting := false)));
    EventsOf(c.events, WsError(result));
    EventsOf(c.events, WsConnected);
    ClosedEffect(c1, 0);
    DisconnectEffect(Push(c1, WsError(result)), 0);
  }

  lemma CloseEffect(c: Conn)
    requires Inv(c)
    ensures var d := CloseStep(c); Effect(c, d, [], c.buffer) && !StartsOver(c, d)
  {
    hide Cleanup, PushClosedOnce, MessagesIn, Closes, Balanced, StopTimers, DropAll;
    if c.registered && c.phase != CLOSING && c.phase != CLOSED {
        CleanupEffect(c, 0);
      ClosedEffect(c.(gear := StopTimers(c.gear)), 0);
    }
  }

  lemma ReconnectEffect(c: Conn, ok: bool)
    requires Inv(c) && c.gear.reconnect
    ensures var d := ReconnectStep(c, ok); Effect(c, d, [], c.buffer) && !StartsOver(c, d)
  {
    hide PushClosedOnce, MessagesIn, Closes, Balanced;
    var c1 := c.(gear := DropReconnect(c.gear));
    EventsOf(c.events, WsError(-1));
    ClosedEffect(c1, 0);
    ClosedEffect(Push(c1, WsError(-1)), 0);
  }

  lemma PollStartEffect(c: Conn, status: int)
    requires Inv(c) && c.gear.poll
    ensures var d, a := PollStartStep(c, status), PollStart(status); Effect(c, d, [], BufferAfter(c, a, d))
  {
    hide Cleanup, PushClosedOnce, DisconnectOrReconnect, MessagesIn, Closes, Balanced;
    EventsOf(c.events, WsError(status));
    CleanupEffect(c, 0);
    DisconnectEffect(Push(c, WsError(status)), 0);
  }

  lemma CloseTimeoutEffect(c: Conn)
    requires Inv(c) && c.gear.close
    ensures var d := CloseTimeoutStep(c); Effect(c, d, [], c.buffer) && !StartsOver(c, d)
  {
    hide Cleanup, PushClosedOnce, MessagesIn, Closes, Balanced;
    CleanupEffect(c.(gear := DropClose(c.gear)), 0);
  }

  lemma OperationEffect(c: Conn, a: Action)
    requires Inv(c) && Enabled(c, a) && (a.OpConnect? || a.OpSend? || a.OpSetPing?)
    ensures var d := Next(c, a); Effect(c, d, [], c.buffer) && !StartsOver(c, d)
  {
    hide MessagesIn, Closes, Balanced;
    EventsOf(c.events, WsError(-1));
    if a.OpSend? { EventsOf(c.events, WsError(a.result)); }
  }

  lemma StepEffect(c: Conn, a: Action)
    requires Inv(c) && Enabled(c, a)
    ensures var d := Next(c, a); Effect(WithLimit(c, a), d, Queued(c, a), BufferAfter(c, a, d)) && (StartsOver(c, d) ==> !a.SetReconnect?)
  {
    hide Take, MessagesIn, Closes, Balanced, Fitted, CloseStep, CurlDoneStep, PollStartStep, ReadFrameStep, CloseTimeoutStep, ReconnectStep;
    match a
    case OpConnect(ok) => OperationEffect(c, a);
    case OpSend(result) => OperationEffect(c, a);
    case OpSetPing(interval) => OperationEffect(c, a);
    case OpClose => CloseEffect(c);
    case CurlDone(result) => CurlDoneEffect(c, result);
    case PollStart(status) => PollStartEffect(c, status);
    case ReadFrame(f) => ReadFrameEffect(c, f);
    case CloseTimeout => CloseTimeoutEffect(c);
    case ReconnectTimer(ok) => ReconnectEffect(c, ok);
    case _ =>
  }

  /** The step applies a new ping interval to a connection that stands. */
  predicate Restarts(c: Conn, a: Action) {
    a.OpSetPing? && c.registered && c.phase == CONNECTED
  }

  /** A ping timer is there after a step that applied a positive interval, and stays as it is otherwise. */
  predicate PingAfter(c: Conn, a: Action, d: Conn) {
    d.phase == CONNECTED ==>
      d.gear.ping == if Stands(c, d) then c.pingInterval > 0 else if Restarts(c, a) then a.interval > 0 else c.gear.ping
  }

  lemma EndsPing(c: Conn, code: int)
    ensures PushClosedOnce(Cleanup(c, false), code).phase == CLOSED
    ensures DisconnectOrReconnect(c, code).phase in {CLOSED, RECONNECTING}
  {
    hide DropAll;
  }

  lemma CurlDonePing(c: Conn, result: int)
    requires Inv(c) && c.gear.connecting
    ensures PingAfter(c, CurlDone(result), CurlDoneStep(c, result))
  {
    hide DisconnectOrReconnect, Closes, Balanced;
    EndsPing(Push(c, WsError(result)).(gear := DropCurl(c.gear.(connecting := false))), 0);
  }

  lemma ReadFramePing(c: Conn, f: Frame)
    requires Inv(c) && c.gear.poll
    ensures PingAfter(c, ReadFrame(f), ReadFrameStep(c, f))
  {
    hide DisconnectOrReconnect, PushClosedOnce, Cleanup, Take, Closes, Balanced;
    match f
    case Gone => EndsPing(c, 0);
    case Failed(code) => EndsPing(Push(c, WsError(code)), 0);
    case CloseFrame(code) => EndsPing(c.(closeSent := true), code);
    case DataFrame(chunk) => EndsPing(Push(c.(buffer := Take(c.buffer, chunk).0), WsError(1009)).(closeSent := true), 0);
    case _ =>
  }

  lemma OtherPing(c: Conn, a: Action)
    requires Inv(c) && Enabled(c, a) && (a.PollStart? || a.OpClose? || a.CloseTimeout?)
    ensures PingAfter(c, a, Next(c, a))
  {
    hide DisconnectOrReconnect, Cleanup, StopTimers, Closes, Balanced, PushClosedOnce;
    EndsPing(c, 0);
    EndsPing(c.(gear := DropClose(c.gear)), 0);
    ClosesFor(c.(gear := StopTimers(c.gear), phase := CLOSED, registered := false), 0);
    if a.PollStart? { EndsPing(Push(c, WsError(a.status)), 0); }
  }

  lemma ClosesFor(c: Conn, code: int)
    ensures PushClosedOnce(c, code).phase == c.phase
  {
  }

  lemma ReconnectPing(c: Conn, ok: bool)
    requires Inv(c) && c.gear.reconnect
    ensures PingAfter(c, ReconnectTimer(ok), ReconnectStep(c, ok))
  {
    hide Closes, Balanced;
  }

  lemma StepPing(c: Conn, a: Action)
    requires Inv(c) && Enabled(c, a)
    ensures PingAfter(c, a, Next(c, a))
  {
    hide CloseStep, CurlDoneStep, PollStartStep, ReadFrameStep, CloseTimeoutStep, ReconnectStep, Closes, Balanced;
    match a
    case CurlDone(result) => CurlDonePing(c, result);
    case ReadFrame(f) => ReadFramePing(c, f);
    case ReconnectTimer(ok) => ReconnectPing(c, ok);
    case PollStart(_) => OtherPing(c, a);
    case OpClose => OtherPing(c, a);
    case CloseTimeout => OtherPing(c, a);
    case _ =>
  }
}
